/** Code lengths per symbol: package-merge over symbols sorted by weight. */
module CodeLengths {
  import opened Bits
  import opened Permutations
  import opened PackageMerge

  // ----- symbols in order of weight -----

  /** By weight, then by symbol. */
  predicate InOrder(weights: seq<nat>, a: nat, b: nat)
    requires a < |weights| && b < |weights|
  {
    weights[a] < weights[b] || (weights[a] == weights[b] && a < b)
  }

  function InsertSymbol(weights: seq<nat>, order: seq<nat>, s: nat): (r: seq<nat>)
    requires s < |weights| && forall i :: 0 <= i < |order| ==> order[i] < |weights|
    ensures |r| == |order| + 1 && forall x :: x in r <==> x in order || x == s
  {
    var n := |order|;
    if n == 0 || InOrder(weights, order[n - 1], s) then order + [s]
    else
      assert order == order[..n - 1] + [order[n - 1]];
      InsertSymbol(weights, order[..n - 1], s) + [order[n - 1]]
  }

  lemma {:induction false} InsertOrdered(weights: seq<nat>, order: seq<nat>, s: nat)
    requires s < |weights| && forall i :: 0 <= i < |order| ==> order[i] < |weights| && order[i] != s
    requires forall i, j :: 0 <= i < j < |order| ==> InOrder(weights, order[i], order[j])
    ensures forall i :: 0 <= i <= |order| ==> InsertSymbol(weights, order, s)[i] < |weights|
    ensures forall i, j :: 0 <= i < j <= |order| ==>
      InOrder(weights, InsertSymbol(weights, order, s)[i], InsertSymbol(weights, order, s)[j])
  {
    var n := |order|;
    var r := InsertSymbol(weights, order, s);
    if n == 0 || InOrder(weights, order[n - 1], s) {
    } else {
      var h := order[..n - 1];
      var g := InsertSymbol(weights, h, s);
      InsertOrdered(weights, h, s);
      forall i | 0 <= i < n ensures InOrder(weights, g[i], order[n - 1]) {
        assert g[i] in g;
        if g[i] in h { var k :| 0 <= k < n - 1 && h[k] == g[i]; }
      }
    }
  }

  /** The first `n` symbols sorted by (weight, symbol): `sort_by_key` on `order`. */
  function SortSymbols(weights: seq<nat>, n: nat): (order: seq<nat>)
    requires n <= |weights|
    ensures |order| == n && forall x: nat :: x in order <==> x < n
  {
    if n == 0 then []
    else
      var g := SortSymbols(weights, n - 1);
      assert forall i :: 0 <= i < |g| ==> g[i] in g;
      InsertSymbol(weights, g, n - 1)
  }

  lemma {:induction false} SortSymbolsOrdered(weights: seq<nat>, n: nat)
    requires n <= |weights|
    ensures forall i :: 0 <= i < n ==> SortSymbols(weights, n)[i] < n
    ensures forall i, j :: 0 <= i < j < n ==> InOrder(weights, SortSymbols(weights, n)[i], SortSymbols(weights, n)[j])
  {
    if n > 0 {
      var g, r := SortSymbols(weights, n - 1), SortSymbols(weights, n);
      SortSymbolsOrdered(weights, n - 1);
      InsertOrdered(weights, g, n - 1);
      forall i | 0 <= i < n ensures r[i] < n { assert r[i] in r; }
    }
  }

  function Order(weights: seq<nat>): (order: seq<nat>)
    ensures |order| == |weights| && Permutation(order)
  {
    SortSymbolsOrdered(weights, |weights|);
    SortSymbols(weights, |weights|)
  }

  function Leaves(weights: seq<nat>): (leaves: seq<Coin>)
    ensures |leaves| == |weights| && Ascending(leaves)
    ensures forall i :: 0 <= i < |leaves| ==> leaves[i] == Leaf(Order(weights)[i], weights[Order(weights)[i]])
  {
    SortSymbolsOrdered(weights, |weights|);
    var order := Order(weights);
    seq(|weights|, i requires 0 <= i < |weights| => Leaf(order[i], weights[order[i]]))
  }

  predicate Admissible(weights: seq<nat>, limit: nat) {
    |weights| >= 2 && limit >= 1 && Pow2(limit) >= |weights|
  }

  /** The code lengths: how often each symbol occurs in the first 2m - 2 coins. */
  function PackageLengths(weights: seq<nat>, limit: nat): (lens: seq<nat>)
    requires Admissible(weights, limit)
    ensures |lens| == |weights|
  {
    EnoughCoins(Leaves(weights), limit);
    var bought := Level(Leaves(weights), limit)[..2 * |weights| - 2];
    seq(|weights|, s requires 0 <= s < |weights| => OccursIn(bought, s))
  }

  lemma {:induction false} OccursInLeaves(leaves: seq<Coin>, order: seq<nat>, x: nat, i: nat)
    requires |order| == |leaves| && Permutation(order) && x <= |leaves| && i < |leaves|
    requires forall j :: 0 <= j < |leaves| ==> leaves[j].Leaf? && leaves[j].sym == order[j]
    ensures OccursIn(leaves[..x], order[i]) == if i < x then 1 else 0
  {
    if x > 0 {
      OccursInLeaves(leaves, order, x - 1, i);
      assert leaves[..x][..x - 1] == leaves[..x - 1];
    }
  }

  lemma {:induction false} OccursBought(leaves: seq<Coin>, order: seq<nat>, t: nat, k: nat, i: nat)
    requires |order| == |leaves| && Permutation(order) && t >= 1 && i < |leaves| && k <= |Level(leaves, t)|
    requires forall j :: 0 <= j < |leaves| ==> leaves[j].Leaf? && leaves[j].sym == order[j]
    ensures OccursIn(Level(leaves, t)[..k], order[i]) == Bought(leaves, t, k, i)
  {
    hide OccursIn, Permutation, Merge, FromLeft, Weight;
    var x := Taken(leaves, t, k);
    OccursInLeaves(leaves, order, x, i);
    if t > 1 {
      var below := Level(leaves, t - 1);
      TotalsMerge(leaves, Pairs(below), k, x, k - x, order[i]);
      TotalsPairs(below, k - x, order[i]);
      OccursBought(leaves, order, t - 1, 2 * (k - x), i);
    }
  }

  /** Lengths in order of weight. */
  lemma RankedLengths(weights: seq<nat>, limit: nat) returns (u: seq<nat>)
    requires Admissible(weights, limit)
    ensures 2 * |weights| - 2 <= |Level(Leaves(weights), limit)|
    ensures u == Gather(PackageLengths(weights, limit), Order(weights))
    ensures forall i :: 0 <= i < |u| ==> u[i] == Bought(Leaves(weights), limit, 2 * |weights| - 2, i)
  {
    var leaves, order := Leaves(weights), Order(weights);
    EnoughCoins(leaves, limit);
    u := Gather(PackageLengths(weights, limit), order);
    forall i | 0 <= i < |u| ensures u[i] == Bought(leaves, limit, 2 * |weights| - 2, i) {
      OccursBought(leaves, order, limit, 2 * |weights| - 2, i);
    }
  }

  lemma GatherBounded(lens: seq<nat>, order: seq<nat>, limit: nat)
    requires Permutation(order) && |order| == |lens|
    requires forall i :: 0 <= i < |order| ==> Gather(lens, order)[i] <= limit
    ensures forall s :: 0 <= s < |lens| ==> lens[s] <= limit
  {
    forall s | 0 <= s < |lens| ensures lens[s] <= limit {
      Onto(order, s);
      var i :| 0 <= i < |order| && order[i] == s;
      assert Gather(lens, order)[i] <= limit;
    }
  }

  lemma KraftByRank(lens: seq<nat>, order: seq<nat>, limit: nat)
    requires Permutation(order) && |order| == |lens| && forall s :: 0 <= s < |lens| ==> lens[s] <= limit
    ensures Kraft(lens, limit) == Kraft(Gather(lens, order), limit)
  {
    SumPermuted(Shares(lens, limit), order);
    assert Gather(Shares(lens, limit), order) == Shares(Gather(lens, order), limit);
  }

  /** The code is complete: its Kraft sum is exactly 1. */
  lemma KraftIsOne(weights: seq<nat>, limit: nat)
    requires Admissible(weights, limit)
    ensures forall s :: 0 <= s < |weights| ==> PackageLengths(weights, limit)[s] <= limit
    ensures Kraft(PackageLengths(weights, limit), limit) == Pow2(limit)
  {
    hide PackageLengths, Order, Pow2, Sum, Shares, Ascending, Level, Bought, Permutation;
    var u := RankedLengths(weights, limit);
    KraftOfBought(Leaves(weights), limit, u);
    GatherBounded(PackageLengths(weights, limit), Order(weights), limit);
    KraftByRank(PackageLengths(weights, limit), Order(weights), limit);
  }

  lemma {:induction false} SumAtLeast(v: seq<nat>, i: nat, j: nat)
    requires i < |v| && j < |v| && i != j
    ensures Sum(v) >= v[i] + v[j]
  {
    var n := |v| - 1;
    var w := v[..n];
    if i == n {
      SumAtLeastOne(w, j);
    } else if j == n {
      SumAtLeastOne(w, i);
    } else {
      SumAtLeast(w, i, j);
    }
  }

  lemma {:induction false} SumAtLeastOne(v: seq<nat>, i: nat)
    requires i < |v|
    ensures Sum(v) >= v[i]
  {
    if i < |v| - 1 { SumAtLeastOne(v[..|v| - 1], i); }
  }

  /** Every symbol gets a code, of at most `limit` bits. */
  lemma LengthsInRange(weights: seq<nat>, limit: nat, s: nat)
    requires Admissible(weights, limit) && s < |weights|
    ensures 1 <= PackageLengths(weights, limit)[s] <= limit
  {
    KraftIsOne(weights, limit);
    var lens := PackageLengths(weights, limit);
    var other := if s == 0 then 1 else 0;
    SumAtLeast(Shares(lens, limit), s, other);
  }

  /** Cost does not depend on whether symbols are taken by number or by rank. */
  lemma CostByRank(weights: seq<nat>, lens: seq<nat>)
    requires |weights| == |lens|
    ensures Cost(weights, lens) == Cost(WeightsOf(Leaves(weights)), Gather(lens, Order(weights)))
  {
    var order := Order(weights);
    SumPermuted(Products(weights, lens), order);
    assert Gather(Products(weights, lens), order) == Products(WeightsOf(Leaves(weights)), Gather(lens, order));
  }

  /** The weight of the coins bought. */
  function CoinCost(weights: seq<nat>, limit: nat): nat
    requires Admissible(weights, limit)
  {
    EnoughCoins(Leaves(weights), limit);
    TotalWeight(Level(Leaves(weights), limit)[..2 * |weights| - 2])
  }

  lemma CostOfBest(weights: seq<nat>, limit: nat)
    requires Admissible(weights, limit)
    ensures Cost(weights, PackageLengths(weights, limit)) == CoinCost(weights, limit)
  {
    var best := RankedLengths(weights, limit);
    CostOfBought(Leaves(weights), limit, 2 * |weights| - 2, best);
    CostByRank(weights, PackageLengths(weights, limit));
  }

  /** Package-merge is optimal among all length vectors within the limit and the Kraft inequality. */
  lemma Optimal(weights: seq<nat>, limit: nat, lens: seq<nat>)
    requires Admissible(weights, limit) && |lens| == |weights|
    requires forall s :: 0 <= s < |lens| ==> lens[s] <= limit
    requires Kraft(lens, limit) <= Pow2(limit)
    ensures Cost(weights, PackageLengths(weights, limit)) <= Cost(weights, lens)
  {
    CostOfBest(weights, limit);
    var u := Gather(lens, Order(weights));
    KraftByRank(lens, Order(weights), limit);
    OptimalByRank(Leaves(weights), u, limit);
    CostByRank(weights, lens);
  }

  // ----- the arena -----

  /** "No child" in the arena: marks a leaf. */
  const NONE: nat := 0xFFFF_FFFF

  /** Three parallel lists; `coins` is what the nodes stand for. */
  datatype Arena = Arena(weight: seq<nat>, left: seq<nat>, right: seq<nat>)

  ghost predicate Node(a: Arena, coins: seq<Coin>, m: nat, i: nat)
    requires i < |coins| == |a.weight| == |a.left| == |a.right|
  {
    && a.weight[i] == Weight(coins[i])
    && if a.left[i] == NONE then coins[i] == Leaf(a.right[i], a.weight[i]) && a.right[i] < m
       else a.left[i] < i && a.right[i] < i && coins[i] == Package(coins[a.left[i]], coins[a.right[i]])
  }

  ghost predicate Stands(a: Arena, coins: seq<Coin>, m: nat) {
    && |coins| == |a.weight| == |a.left| == |a.right|
    && forall i :: 0 <= i < |coins| ==> Node(a, coins, m, i)
  }

  /** The node numbers `ns` stand for the coins `cs`. */
  ghost predicate Refer(ns: seq<nat>, coins: seq<Coin>, cs: seq<Coin>) {
    |ns| == |cs| && forall i :: 0 <= i < |ns| ==> ns[i] < |coins| && coins[ns[i]] == cs[i]
  }

  lemma NodesKept(a: Arena, a': Arena, coins: seq<Coin>, c: Coin, m: nat)
    requires Stands(a, coins, m)
    requires |a'.weight| == |a'.left| == |a'.right| == |coins| + 1
    requires a.weight <= a'.weight && a.left <= a'.left && a.right <= a'.right
    requires Node(a', coins + [c], m, |coins|)
    ensures Stands(a', coins + [c], m)
  {
    forall i | 0 <= i < |coins + [c]| ensures Node(a', coins + [c], m, i) {
      if i < |coins| { assert Node(a, coins, m, i); }
    }
  }

  method AddLeaves(weights: seq<nat>) returns (a: Arena, leaves: seq<nat>, ghost coins: seq<Coin>)
    ensures Stands(a, coins, |weights|) && Refer(leaves, coins, Leaves(weights)) && |coins| == |weights|
  {
    a := Arena([], [], []);
    coins := [];
    leaves := [];
    var order := Order(weights);
    for i := 0 to |order|
      invariant Stands(a, coins, |weights|) && |coins| == i
      invariant Refer(leaves, coins, Leaves(weights)[..i])
    {
      ghost var a0 := a;
      ghost var c := Leaf(order[i], weights[order[i]]);
      a := Arena(a.weight + [weights[order[i]]], a.left + [NONE], a.right + [order[i]]);
      NodesKept(a0, a, coins, c, |weights|);
      leaves := leaves + [|a.weight| - 1];
      coins := coins + [c];
    }
    assert Leaves(weights)[..|order|] == Leaves(weights);
  }

  /** Package the coins of a level two by two. */
  method AddPackages(a0: Arena, ghost coins0: seq<Coin>, m: nat, level: seq<nat>, ghost cs: seq<Coin>)
    returns (a: Arena, packaged: seq<nat>, ghost coins: seq<Coin>)
    requires Stands(a0, coins0, m) && Refer(level, coins0, cs) && |coins0| + |level| / 2 <= NONE
    ensures Stands(a, coins, m) && Refer(packaged, coins, Pairs(cs))
    ensures coins0 <= coins && |coins| == |coins0| + |level| / 2
  {
    a, coins, packaged := a0, coins0, [];
    var i := 0;
    while i + 1 < |level|
      invariant i % 2 == 0 && i / 2 <= |level| / 2
      invariant Stands(a, coins, m) && coins0 <= coins && |coins| == |coins0| + i / 2
      invariant Refer(packaged, coins, Pairs(cs)[..i / 2])
    {
      var x, y := level[i], level[i + 1];
      ghost var a1 := a;
      ghost var c := Package(cs[i], cs[i + 1]);
      assert Node(a, coins, m, x) && Node(a, coins, m, y);
      a := Arena(a.weight + [a.weight[x] + a.weight[y]], a.left + [x], a.right + [y]);
      NodesKept(a1, a, coins, c, m);
      packaged := packaged + [|a.weight| - 1];
      coins := coins + [c];
      i := i + 2;
    }
    assert Pairs(cs)[..i / 2] == Pairs(cs);
  }

  /** The next coin of a merge, when `x` leaves and `y` packages have been placed. */
  lemma MergeStep(ls: seq<Coin>, ps: seq<Coin>, full: seq<Coin>, x: nat, y: nat, takeLeaf: bool)
    requires x <= |ls| && y <= |ps| && (x < |ls| || y < |ps|)
    requires |full| == |ls| + |ps| && full[x + y..] == Merge(ls[x..], ps[y..])
    requires takeLeaf <==> y >= |ps| || (x < |ls| && Weight(ls[x]) <= Weight(ps[y]))
    ensures takeLeaf ==> x < |ls| && full[x + y] == ls[x] && full[x + y + 1..] == Merge(ls[x + 1..], ps[y..])
    ensures !takeLeaf ==> y < |ps| && full[x + y] == ps[y] && full[x + y + 1..] == Merge(ls[x..], ps[y + 1..])
  {
    assert full[x + y + 1..] == full[x + y..][1..];
    if takeLeaf {
      assert ls[x..][1..] == ls[x + 1..];
      if y == |ps| { MergeNone(ls[x + 1..]); }
    } else {
      assert ps[y..] == [ps[y]] + ps[y + 1..];
    }
  }

  lemma {:induction false} MergeNone(a: seq<Coin>)
    ensures Merge(a, []) == a
  {
    if a != [] { MergeNone(a[1..]); }
  }

  /** Merge packages into the leaves; on equal weights the leaf goes first. */
  method MergeLevel(a: Arena, ghost coins: seq<Coin>, m: nat, leaves: seq<nat>, ghost ls: seq<Coin>,
                    packaged: seq<nat>, ghost ps: seq<Coin>) returns (merged: seq<nat>)
    requires Stands(a, coins, m) && Refer(leaves, coins, ls) && Refer(packaged, coins, ps)
    ensures Refer(merged, coins, Merge(ls, ps))
  {
    hide Weight, Merge;
    merged := [];
    ghost var full := Merge(ls, ps);
    var x, y := 0, 0;
    while x < |leaves| || y < |packaged|
      invariant x <= |leaves| && y <= |packaged|
      invariant |merged| == x + y && full[x + y..] == Merge(ls[x..], ps[y..])
      invariant Refer(merged, coins, full[..x + y])
      decreases |leaves| + |packaged| - x - y
    {
      if x < |leaves| { assert Node(a, coins, m, leaves[x]); }
      if y < |packaged| { assert Node(a, coins, m, packaged[y]); }
      var takeLeaf := y >= |packaged| || (x < |leaves| && a.weight[leaves[x]] <= a.weight[packaged[y]]);
      MergeStep(ls, ps, full, x, y, takeLeaf);
      if takeLeaf {
        merged := merged + [leaves[x]];
        x := x + 1;
      } else {
        merged := merged + [packaged[y]];
        y := y + 1;
      }
    }
    assert full[..x + y] == full;
  }

  // ----- counting leaves -----

  function Size(c: Coin): (n: nat)
    ensures n >= 1
  {
    match c
    case Leaf(_, _) => 1
    case Package(l, r) => 1 + Size(l) + Size(r)
  }

  ghost function StackSize(stack: seq<nat>, coins: seq<Coin>): nat
    requires forall i :: 0 <= i < |stack| ==> stack[i] < |coins|
  {
    if stack == [] then 0 else StackSize(stack[..|stack| - 1], coins) + Size(coins[stack[|stack| - 1]])
  }

  /** Occurrences of `s` still on the stack. */
  ghost function StackOccurs(stack: seq<nat>, coins: seq<Coin>, s: nat): nat
    requires forall i :: 0 <= i < |stack| ==> stack[i] < |coins|
  {
    if stack == [] then 0 else StackOccurs(stack[..|stack| - 1], coins, s) + Occurs(coins[stack[|stack| - 1]], s)
  }

  lemma StackPush(stack: seq<nat>, coins: seq<Coin>, x: nat, s: nat)
    requires (forall i :: 0 <= i < |stack| ==> stack[i] < |coins|) && x < |coins|
    ensures StackSize(stack + [x], coins) == StackSize(stack, coins) + Size(coins[x])
    ensures StackOccurs(stack + [x], coins, s) == StackOccurs(stack, coins, s) + Occurs(coins[x], s)
  {
    assert (stack + [x])[..|stack|] == stack;
  }

  /** Add to `lens` every leaf of one coin. */
  method CountLeaves(a: Arena, ghost coins: seq<Coin>, m: nat, node: nat, lens0: seq<nat>) returns (lens: seq<nat>)
    requires Stands(a, coins, m) && node < |coins| && |lens0| == m
    ensures |lens| == m && forall s :: 0 <= s < m ==> lens[s] == lens0[s] + Occurs(coins[node], s)
  {
    lens := lens0;
    var stack: seq<nat> := [node];
    forall s: nat ensures StackOccurs(stack, coins, s) == Occurs(coins[node], s) { StackPush([], coins, node, s); }
    while stack != []
      invariant |lens| == m && forall i :: 0 <= i < |stack| ==> stack[i] < |coins|
      invariant forall s :: 0 <= s < m ==> lens[s] + StackOccurs(stack, coins, s) == lens0[s] + Occurs(coins[node], s)
      decreases StackSize(stack, coins)
    {
      var nd := stack[|stack| - 1];
      ghost var full: seq<nat> := stack;
      stack := stack[..|stack| - 1];
      assert Node(a, coins, m, nd);
      if a.left[nd] == NONE {
        lens := lens[a.right[nd] := lens[a.right[nd]] + 1];
      } else {
        ghost var base: seq<nat> := stack;
        stack := stack + [a.left[nd]];
        stack := stack + [a.right[nd]];
        forall s: nat ensures StackOccurs(stack, coins, s) == StackOccurs(full, coins, s) {
          StackPush(base, coins, a.left[nd], s);
          StackPush(base + [a.left[nd]], coins, a.right[nd], s);
        }
        StackPush(base, coins, a.left[nd], 0);
        StackPush(base + [a.left[nd]], coins, a.right[nd], 0);
      }
    }
  }

  lemma ArenaRoom(m: nat, t: nat, limit: nat)
    requires t < limit
    ensures m * t + m <= m * limit && m * (t + 1) == m * t + m
  {
    MulMono(t + 1, limit, m);
    assert m * (t + 1) == (t + 1) * m && m * limit == limit * m;
  }

  method BuildLevels(weights: seq<nat>, limit: nat) returns (a: Arena, level: seq<nat>, ghost coins: seq<Coin>)
    requires limit >= 1 && weights != [] && |weights| * limit <= NONE
    ensures Stands(a, coins, |weights|) && Refer(level, coins, Level(Leaves(weights), limit))
  {
    var m := |weights|;
    ghost var ls := Leaves(weights);
    var leaves;
    a, leaves, coins := AddLeaves(weights);
    level := leaves;
    for t := 1 to limit
      invariant Stands(a, coins, m) && Refer(leaves, coins, ls) && Refer(level, coins, Level(ls, t))
      invariant |coins| <= m * t
    {
      ShortfallHalves(ls, t);
      ArenaRoom(m, t, limit);
      var packaged;
      a, packaged, coins := AddPackages(a, coins, m, level, Level(ls, t));
      level := MergeLevel(a, coins, m, leaves, ls, packaged, Pairs(Level(ls, t)));
    }
  }

  /** `package_merge`. The node numbers of all levels must fit below `NONE`. */
  method PackageMergeLengths(weights: seq<nat>, limit: nat) returns (lens: seq<nat>)
    requires Admissible(weights, limit) && |weights| * limit <= NONE
    ensures lens == PackageLengths(weights, limit)
  {
    hide Level, Leaves, Pow2, Occurs;
    var m := |weights|;
    ghost var coins;
    var a, level;
    a, level, coins := BuildLevels(weights, limit);
    EnoughCoins(Leaves(weights), limit);
    ghost var bought := Level(Leaves(weights), limit);
    lens := seq(m, _ => 0);
    for i := 0 to 2 * m - 2
      invariant |lens| == m && forall s :: 0 <= s < m ==> lens[s] == OccursIn(bought[..i], s)
    {
      assert bought[..i + 1][..i] == bought[..i];
      lens := CountLeaves(a, coins, m, level[i], lens);
    }
  }
}
