/** Length-limited prefix code lengths by package-merge.

    Coins of level 1 (the finest denomination) are the leaves in ascending weight; the coins of
    level t + 1 are the leaves merged with the pairs of level t. The first 2m - 2 coins of the
    coarsest level are bought, and a symbol's code length is the number of times it was bought.
 */
module PackageMerge {
  import opened Bits
  import opened Permutations

  datatype Coin = Leaf(sym: nat, w: nat) | Package(left: Coin, right: Coin)

  function Weight(c: Coin): nat {
    match c
    case Leaf(_, w) => w
    case Package(a, b) => Weight(a) + Weight(b)
  }

  function TotalWeight(cs: seq<Coin>): nat {
    if cs == [] then 0 else TotalWeight(cs[..|cs| - 1]) + Weight(cs[|cs| - 1])
  }

  /** How often symbol `s` occurs as a leaf. */
  function Occurs(c: Coin, s: nat): nat {
    match c
    case Leaf(sym, _) => if sym == s then 1 else 0
    case Package(a, b) => Occurs(a, s) + Occurs(b, s)
  }

  function OccursIn(cs: seq<Coin>, s: nat): nat {
    if cs == [] then 0 else OccursIn(cs[..|cs| - 1], s) + Occurs(cs[|cs| - 1], s)
  }

  ghost predicate Ascending(cs: seq<Coin>) {
    forall i, j :: 0 <= i < j < |cs| ==> Weight(cs[i]) <= Weight(cs[j])
  }

  // ----- levels -----

  /** Adjacent coins two by two; an odd last coin is dropped. */
  function Pairs(cs: seq<Coin>): (r: seq<Coin>)
    ensures |r| == |cs| / 2
    ensures forall i :: 0 <= i < |r| ==> r[i] == Package(cs[2 * i], cs[2 * i + 1])
  {
    seq(|cs| / 2, i requires 0 <= i < |cs| / 2 => Package(cs[2 * i], cs[2 * i + 1]))
  }

  /** Merge from the front; on equal weights the leaf goes first. */
  function Merge(a: seq<Coin>, b: seq<Coin>): (r: seq<Coin>)
    ensures |r| == |a| + |b|
    decreases |a| + |b|
  {
    if a == [] then b
    else if b == [] || Weight(a[0]) <= Weight(b[0]) then [a[0]] + Merge(a[1..], b)
    else [b[0]] + Merge(a, b[1..])
  }

  function Level(leaves: seq<Coin>, t: nat): (r: seq<Coin>)
    requires t >= 1
  {
    if t == 1 then leaves else Merge(leaves, Pairs(Level(leaves, t - 1)))
  }

  /** How many of the first `k` coins of `Merge(a, b)` come from `a`. */
  function FromLeft(a: seq<Coin>, b: seq<Coin>, k: nat): (x: nat)
    requires k <= |a| + |b|
    ensures x <= k && x <= |a| && k - x <= |b|
    decreases |a| + |b|
  {
    if k == 0 || a == [] then 0
    else if b == [] || Weight(a[0]) <= Weight(b[0]) then 1 + FromLeft(a[1..], b, k - 1)
    else FromLeft(a, b[1..], k - 1)
  }

  // ----- sums over concatenations and prefixes -----

  lemma {:induction false} TotalsAppend(a: seq<Coin>, b: seq<Coin>, s: nat)
    ensures TotalWeight(a + b) == TotalWeight(a) + TotalWeight(b)
    ensures OccursIn(a + b, s) == OccursIn(a, s) + OccursIn(b, s)
    decreases |b|
  {
    if b == [] {
      assert a + b == a;
    } else {
      assert (a + b)[..|a + b| - 1] == a + b[..|b| - 1];
      TotalsAppend(a, b[..|b| - 1], s);
    }
  }

  lemma TotalsFirst(a: seq<Coin>, k: nat, s: nat)
    requires 0 < k <= |a|
    ensures TotalWeight(a[..k]) == Weight(a[0]) + TotalWeight(a[1..][..k - 1])
    ensures OccursIn(a[..k], s) == Occurs(a[0], s) + OccursIn(a[1..][..k - 1], s)
  {
    assert a[..k] == [a[0]] + a[1..][..k - 1];
    TotalsAppend([a[0]], a[1..][..k - 1], s);
    assert [a[0]][..0] == [];
  }

  lemma {:induction false} TotalsPairs(cs: seq<Coin>, y: nat, s: nat)
    requires 2 * y <= |cs|
    ensures TotalWeight(Pairs(cs)[..y]) == TotalWeight(cs[..2 * y])
    ensures OccursIn(Pairs(cs)[..y], s) == OccursIn(cs[..2 * y], s)
  {
    if y > 0 {
      TotalsPairs(cs, y - 1, s);
      var p := Pairs(cs)[..y];
      assert p[..y - 1] == Pairs(cs)[..y - 1];
      var c, d := cs[..2 * y], cs[..2 * y - 1];
      assert c[..2 * y - 1] == d;
      assert d[..2 * y - 2] == cs[..2 * (y - 1)];
      assert c[2 * y - 1] == cs[2 * y - 1] && d[2 * y - 2] == cs[2 * y - 2];
    }
  }

  /** The first `k` coins of a merge are the first of each side. */
  lemma {:induction false} TotalsMerge(a: seq<Coin>, b: seq<Coin>, k: nat, x: nat, y: nat, s: nat)
    requires k <= |a| + |b| && x == FromLeft(a, b, k) && y == k - x
    ensures TotalWeight(Merge(a, b)[..k]) == TotalWeight(a[..x]) + TotalWeight(b[..y])
    ensures OccursIn(Merge(a, b)[..k], s) == OccursIn(a[..x], s) + OccursIn(b[..y], s)
    decreases |a| + |b|
  {
    hide Weight;
    var m := Merge(a, b);
    if a == [] {
      assert a[..x] == [];
    } else if k > 0 {
      TotalsFirst(m, k, s);
      if b == [] || Weight(a[0]) <= Weight(b[0]) {
        TotalsMerge(a[1..], b, k - 1, x - 1, y, s);
        TotalsFirst(a, x, s);
        assert m[1..] == Merge(a[1..], b);
      } else {
        TotalsMerge(a, b[1..], k - 1, x, y - 1, s);
        TotalsFirst(b, y, s);
        assert m[1..] == Merge(a, b[1..]);
      }
    }
  }

  lemma OneFewer(a: seq<Coin>, x: nat)
    requires Ascending(a) && 0 < x <= |a|
    ensures TotalWeight(a[..x]) >= TotalWeight(a[..x - 1]) + Weight(a[0])
  {
    assert a[..x][..x - 1] == a[..x - 1];
    assert Weight(a[0]) <= Weight(a[x - 1]);
  }

  lemma MergeFirst(a: seq<Coin>, b: seq<Coin>)
    ensures a == [] ==> Merge(a, b) == b
    ensures a != [] ==> if b == [] || Weight(a[0]) <= Weight(b[0])
      then Merge(a, b) == [a[0]] + Merge(a[1..], b) && Merge(a, b)[1..] == Merge(a[1..], b)
      else Merge(a, b) == [b[0]] + Merge(a, b[1..]) && Merge(a, b)[1..] == Merge(a, b[1..])
  {
  }

  lemma AscendingTail(a: seq<Coin>)
    requires Ascending(a) && a != []
    ensures Ascending(a[1..])
  {
  }

  /** No other way to take `k` coins from the two sides is cheaper. */
  lemma {:induction false} MergeCheapest(a: seq<Coin>, b: seq<Coin>, x: nat, y: nat)
    requires Ascending(a) && Ascending(b) && x <= |a| && y <= |b|
    ensures TotalWeight(Merge(a, b)[..x + y]) <= TotalWeight(a[..x]) + TotalWeight(b[..y])
    decreases |a| + |b|
  {
    hide Weight, TotalWeight, Merge, Ascending;
    var k := x + y;
    MergeFirst(a, b);
    if k > 0 && a != [] {
      TotalsFirst(Merge(a, b), k, 0);
      if b == [] || Weight(a[0]) <= Weight(b[0]) {
        AscendingTail(a);
        if x > 0 {
          MergeCheapest(a[1..], b, x - 1, y);
          TotalsFirst(a, x, 0);
        } else {
          MergeCheapest(a[1..], b, 0, y - 1);
          OneFewer(b, y);
          assert a[1..][..0] == a[..0];
        }
      } else {
        AscendingTail(b);
        if y > 0 {
          MergeCheapest(a, b[1..], x, y - 1);
          TotalsFirst(b, y, 0);
        } else {
          MergeCheapest(a, b[1..], x - 1, 0);
          OneFewer(a, x);
          assert b[1..][..0] == b[..0];
        }
      }
    }
  }

  lemma {:induction false} MergeMembers(a: seq<Coin>, b: seq<Coin>, c: Coin)
    requires c in Merge(a, b)
    ensures c in a || c in b
    decreases |a| + |b|
  {
    if a != [] {
      if b == [] || Weight(a[0]) <= Weight(b[0]) {
        if c != a[0] { MergeMembers(a[1..], b, c); }
      } else {
        if c != b[0] { MergeMembers(a, b[1..], c); }
      }
    }
  }

  lemma {:induction false} MergeAscending(a: seq<Coin>, b: seq<Coin>)
    requires Ascending(a) && Ascending(b)
    ensures Ascending(Merge(a, b))
    decreases |a| + |b|
  {
    if a != [] {
      var m := Merge(a, b);
      if b == [] || Weight(a[0]) <= Weight(b[0]) {
        MergeAscending(a[1..], b);
        forall j | 0 < j < |m| ensures Weight(m[0]) <= Weight(m[j]) {
          assert m[j] == Merge(a[1..], b)[j - 1];
          MergeMembers(a[1..], b, m[j]);
        }
      } else {
        MergeAscending(a, b[1..]);
        forall j | 0 < j < |m| ensures Weight(m[0]) <= Weight(m[j]) {
          assert m[j] == Merge(a, b[1..])[j - 1];
          MergeMembers(a, b[1..], m[j]);
        }
      }
    }
  }

  lemma PairsAscending(cs: seq<Coin>)
    requires Ascending(cs)
    ensures Ascending(Pairs(cs))
  {
    forall i, j | 0 <= i < j < |Pairs(cs)| ensures Weight(Pairs(cs)[i]) <= Weight(Pairs(cs)[j]) {
      assert Weight(cs[2 * i]) <= Weight(cs[2 * j]);
      assert Weight(cs[2 * i + 1]) <= Weight(cs[2 * j + 1]);
    }
  }

  lemma {:induction false} LevelAscending(leaves: seq<Coin>, t: nat)
    requires t >= 1 && Ascending(leaves)
    ensures Ascending(Level(leaves, t))
  {
    if t > 1 {
      LevelAscending(leaves, t - 1);
      PairsAscending(Level(leaves, t - 1));
      MergeAscending(leaves, Pairs(Level(leaves, t - 1)));
    }
  }

  lemma HalfStep(p: nat, d: int, e: int, m: nat)
    requires 2 * (e - 1) <= d - 1 && p * (d - 1) < m
    ensures (2 * p) * (e - 1) < m
  {
    MulMono(2 * (e - 1), d - 1, p);
    assert (2 * p) * (e - 1) == (2 * (e - 1)) * p;
  }

  lemma AtMostTwo(p: nat, e: int, m: nat)
    requires p * (e - 1) < m <= 2 * p
    ensures e <= 2
  {
    assert (e - 1) * p == p * (e - 1);
    if e > 2 { MulMono(2, e - 1, p); }
  }

  /** By how many coins level `t` falls short of 2m. */
  ghost function Shortfall(leaves: seq<Coin>, t: nat): int
    requires t >= 1
  {
    2 * |leaves| - |Level(leaves, t)|
  }

  lemma {:induction false} ShortfallHalves(leaves: seq<Coin>, t: nat)
    requires t >= 1 && leaves != []
    ensures 0 < Shortfall(leaves, t) <= |leaves|
    ensures Pow2(t - 1) * (Shortfall(leaves, t) - 1) < |leaves|
  {
    if t > 1 {
      ShortfallHalves(leaves, t - 1);
      HalfStep(Pow2(t - 2), Shortfall(leaves, t - 1), Shortfall(leaves, t), |leaves|);
    }
  }

  /** With `2^t >= m` leaves, level `t` is long enough. */
  lemma EnoughCoins(leaves: seq<Coin>, t: nat)
    requires t >= 1 && |leaves| >= 2 && Pow2(t) >= |leaves|
    ensures |Level(leaves, t)| >= 2 * |leaves| - 2
  {
    ShortfallHalves(leaves, t);
    AtMostTwo(Pow2(t - 1), Shortfall(leaves, t), |leaves|);
  }

  // ----- what is bought -----

  /** The leaves among the first `k` coins of level `t` are the `Taken` lightest ones. */
  function Taken(leaves: seq<Coin>, t: nat, k: nat): (x: nat)
    requires t >= 1 && k <= |Level(leaves, t)|
    ensures x <= k && x <= |leaves|
  {
    if t == 1 then k else FromLeft(leaves, Pairs(Level(leaves, t - 1)), k)
  }

  /** How often leaf `i` is bought when the first `k` coins of level `t` are. */
  function Bought(leaves: seq<Coin>, t: nat, k: nat, i: nat): (n: nat)
    requires t >= 1 && k <= |Level(leaves, t)|
    ensures n <= t
  {
    var x := Taken(leaves, t, k);
    (if i < x then 1 else 0) + if t == 1 then 0 else Bought(leaves, t - 1, 2 * (k - x), i)
  }

  /** A leaf inside a bought package is bought at every coarser level too: ties favour leaves. */
  lemma {:induction false} FromLeftGreedy(a: seq<Coin>, b: seq<Coin>, k: nat, i: nat, j: nat)
    requires k <= |a| + |b| && Ascending(a) && Ascending(b)
    requires i < |a| && j < |b| && j < k - FromLeft(a, b, k) && Weight(a[i]) <= Weight(b[j])
    ensures i < FromLeft(a, b, k)
    decreases |a| + |b|
  {
    if b == [] || Weight(a[0]) <= Weight(b[0]) {
      if i > 0 { FromLeftGreedy(a[1..], b, k - 1, i - 1, j); }
    } else {
      assert j > 0 by { assert Weight(a[0]) <= Weight(a[i]); }
      FromLeftGreedy(a, b[1..], k - 1, i, j - 1);
    }
  }

  lemma {:induction false} FromLeftPlace(a: seq<Coin>, b: seq<Coin>, k: nat, i: nat) returns (q: nat)
    requires k <= |a| + |b| && i < FromLeft(a, b, k)
    ensures q < k && Merge(a, b)[q] == a[i]
    decreases |a| + |b|
  {
    if b == [] || Weight(a[0]) <= Weight(b[0]) {
      if i == 0 {
        q := 0;
      } else {
        q := FromLeftPlace(a[1..], b, k - 1, i - 1);
        q := q + 1;
      }
    } else {
      q := FromLeftPlace(a, b[1..], k - 1, i);
      q := q + 1;
    }
  }

  /** Every leaf taken at a level is among its coins. */
  lemma TakenPlace(leaves: seq<Coin>, t: nat, k: nat, i: nat) returns (q: nat)
    requires t >= 1 && k <= |Level(leaves, t)| && i < Taken(leaves, t, k)
    ensures q < k && Level(leaves, t)[q] == leaves[i]
  {
    if t == 1 {
      q := i;
    } else {
      q := FromLeftPlace(leaves, Pairs(Level(leaves, t - 1)), k, i);
    }
  }

  /** Nesting of two levels: the leaf at `cs[q]` is inside a bought package, hence bought itself. */
  lemma NestedLeaf(leaves: seq<Coin>, cs: seq<Coin>, k: nat, i: nat, q: nat)
    requires Ascending(leaves) && Ascending(cs) && k <= |leaves| + |cs| / 2
    requires i < |leaves| && q < |cs| && cs[q] == leaves[i]
    requires q < 2 * (k - FromLeft(leaves, Pairs(cs), k))
    ensures i < FromLeft(leaves, Pairs(cs), k)
  {
    PairsAscending(cs);
    var j := q / 2;
    assert Pairs(cs)[j] == Package(cs[2 * j], cs[2 * j + 1]);
    FromLeftGreedy(leaves, Pairs(cs), k, i, j);
  }

  /** Nesting: what is bought at a finer level is bought at the next coarser one. */
  lemma TakenNested(leaves: seq<Coin>, t: nat, t': nat, k: nat)
    requires t' >= 1 && t == t' + 1 && k <= |Level(leaves, t)| && Ascending(leaves)
    ensures Taken(leaves, t', 2 * (k - Taken(leaves, t, k))) <= Taken(leaves, t, k)
  {
    var x := Taken(leaves, t, k);
    var z := Taken(leaves, t', 2 * (k - x));
    if z > x {
      LevelAscending(leaves, t');
      var q := TakenPlace(leaves, t', 2 * (k - x), z - 1);
      NestedLeaf(leaves, Level(leaves, t'), k, z - 1, q);
    }
  }

  lemma {:induction false} BoughtNested(leaves: seq<Coin>, t: nat, k: nat, i: nat)
    requires t >= 1 && k <= |Level(leaves, t)| && Ascending(leaves)
    ensures Bought(leaves, t, k, i) > 0 <==> i < Taken(leaves, t, k)
  {
    if t > 1 {
      TakenNested(leaves, t, t - 1, k);
      BoughtNested(leaves, t - 1, 2 * (k - Taken(leaves, t, k)), i);
    }
  }

  // ----- the Kraft sum -----

  /** Sum over leaves below `i` of 2^t - 2^(t - times bought). */
  ghost function Covered(leaves: seq<Coin>, t: nat, k: nat, i: nat): int
    requires t >= 1 && k <= |Level(leaves, t)|
  {
    if i == 0 then 0
    else Covered(leaves, t, k, i - 1) + Pow2(t) - Pow2(t - Bought(leaves, t, k, i - 1))
  }

  lemma BoughtStep(leaves: seq<Coin>, t: nat, k: nat, i: nat)
    requires t > 1 && k <= |Level(leaves, t)| && Ascending(leaves)
    ensures var x := Taken(leaves, t, k);
      Pow2(t) - Pow2(t - Bought(leaves, t, k, i))
        == (if i < x then Pow2(t - 1) else 0) + Pow2(t - 1) - Pow2(t - 1 - Bought(leaves, t - 1, 2 * (k - x), i))
  {
    BoughtNested(leaves, t, k, i);
  }

  lemma {:induction false} CoveredStep(leaves: seq<Coin>, t: nat, k: nat, x: nat, i: nat)
    requires t > 1 && k <= |Level(leaves, t)| && Ascending(leaves) && x == Taken(leaves, t, k)
    ensures Covered(leaves, t, k, i) == (if i < x then i else x) * Pow2(t - 1) + Covered(leaves, t - 1, 2 * (k - x), i)
    decreases i
  {
    hide Taken, Bought, Pow2, Ascending, Level;
    if i > 0 {
      CoveredStep(leaves, t, k, x, i - 1);
      BoughtStep(leaves, t, k, i - 1);
      OneMore(i, x, Pow2(t - 1));
    }
  }

  lemma OneMore(i: nat, x: nat, p: nat)
    requires i > 0
    ensures (if i < x then i else x) * p == (if i - 1 < x then i - 1 else x) * p + if i - 1 < x then p else 0
  {
    if i - 1 < x { assert i * p == (i - 1) * p + p; }
  }

  lemma {:induction false} CoveredFirst(leaves: seq<Coin>, k: nat, i: nat)
    requires k <= |leaves| && i <= |leaves|
    ensures Covered(leaves, 1, k, i) == if i < k then i else k
    decreases i
  {
    if i > 0 { CoveredFirst(leaves, k, i - 1); }
  }

  /** The bought coins pay exactly their value: `k` coins worth 2^(t-1) each. */
  lemma {:induction false} CoveredAll(leaves: seq<Coin>, t: nat, k: nat)
    requires t >= 1 && k <= |Level(leaves, t)| && Ascending(leaves)
    ensures Covered(leaves, t, k, |leaves|) == k * Pow2(t - 1)
  {
    if t == 1 {
      CoveredFirst(leaves, k, |leaves|);
    } else {
      var x := Taken(leaves, t, k);
      CoveredStep(leaves, t, k, x, |leaves|);
      CoveredAll(leaves, t - 1, 2 * (k - x));
      ValueSplits(k, x, Pow2(t - 2));
    }
  }

  lemma ValueSplits(k: nat, x: nat, p: nat)
    requires x <= k
    ensures x * (2 * p) + (2 * (k - x)) * p == k * (2 * p)
  {
  }

  // ----- optimality of the coins bought -----

  /** Value of `xs[j]` coins of each denomination 2^j. */
  function Width(xs: seq<nat>): nat {
    if xs == [] then 0 else Width(xs[..|xs| - 1]) + xs[|xs| - 1] * Pow2(|xs| - 1)
  }

  /** Cost of buying the `xs[j]` lightest leaves at each denomination. */
  function LightestCost(leaves: seq<Coin>, xs: seq<nat>): nat
    requires forall j :: 0 <= j < |xs| ==> xs[j] <= |leaves|
  {
    if xs == [] then 0
    else LightestCost(leaves, xs[..|xs| - 1]) + TotalWeight(leaves[..xs[|xs| - 1]])
  }

  lemma {:induction false} TotalMono(cs: seq<Coin>, a: nat, b: nat)
    requires a <= b <= |cs|
    ensures TotalWeight(cs[..a]) <= TotalWeight(cs[..b])
    decreases b
  {
    if a < b {
      TotalMono(cs, a, b - 1);
      assert cs[..b][..b - 1] == cs[..b - 1];
    }
  }

  lemma CancelPow(x: nat, k: nat, w: nat, p: nat)
    requires w + x * (2 * p) >= k * (2 * p) && x <= k
    ensures w >= (2 * (k - x)) * p
  {
    assert k * (2 * p) == x * (2 * p) + (2 * (k - x)) * p;
  }

  lemma LevelCheapest(leaves: seq<Coin>, cs: seq<Coin>, x: nat, y: nat)
    requires Ascending(leaves) && Ascending(cs) && x <= |leaves| && 2 * y <= |cs|
    ensures TotalWeight(Merge(leaves, Pairs(cs))[..x + y]) <= TotalWeight(leaves[..x]) + TotalWeight(cs[..2 * y])
  {
    PairsAscending(cs);
    MergeCheapest(leaves, Pairs(cs), x, y);
    TotalsPairs(cs, y, 0);
  }

  lemma TotalNone(cs: seq<Coin>)
    ensures TotalWeight(cs[..0]) == 0
  {
  }

  /** Any purchase worth `k` coins of level `t` costs at least the first `k` coins of that level. */
  lemma {:induction false} Cheapest(leaves: seq<Coin>, xs: seq<nat>, t: nat, k: nat)
    requires t == |xs| >= 1 && Ascending(leaves)
    requires forall j :: 0 <= j < |xs| ==> xs[j] <= |leaves|
    requires Width(xs) >= k * Pow2(t - 1)
    ensures k <= |Level(leaves, t)|
    ensures LightestCost(leaves, xs) >= TotalWeight(Level(leaves, t)[..k])
  {
    hide TotalWeight, Merge, Pairs, Ascending;
    var x, rest := xs[t - 1], xs[..t - 1];
    if t == 1 {
      assert rest == [];
      assert Pow2(0) == 1;
      TotalMono(leaves, k, x);
    } else {
      LevelAscending(leaves, t - 1);
      if x >= k {
        TotalMono(leaves, k, x);
        LevelCheapest(leaves, Level(leaves, t - 1), k, 0);
        TotalNone(Level(leaves, t - 1));
      } else {
        CancelPow(x, k, Width(rest), Pow2(t - 2));
        Cheapest(leaves, rest, t - 1, 2 * (k - x));
        LevelCheapest(leaves, Level(leaves, t - 1), x, k - x);
      }
    }
  }

  // ----- a length vector as a purchase -----

  /** How many of the first `i` lengths are at least `d`. */
  function AtLeast(u: seq<nat>, d: int, i: nat): (n: nat)
    requires i <= |u|
    ensures n <= i
  {
    if i == 0 then 0 else AtLeast(u, d, i - 1) + if u[i - 1] >= d then 1 else 0
  }

  function WeightAtLeast(leaves: seq<Coin>, u: seq<nat>, d: int, i: nat): nat
    requires i <= |u| == |leaves|
  {
    if i == 0 then 0 else WeightAtLeast(leaves, u, d, i - 1) + if u[i - 1] >= d then Weight(leaves[i - 1]) else 0
  }

  lemma {:induction false} AnyHeavierThanLightest(leaves: seq<Coin>, u: seq<nat>, d: int, i: nat)
    requires i <= |u| == |leaves| && Ascending(leaves)
    ensures WeightAtLeast(leaves, u, d, i) >= TotalWeight(leaves[..AtLeast(u, d, i)])
  {
    if i > 0 {
      AnyHeavierThanLightest(leaves, u, d, i - 1);
      var c := AtLeast(u, d, i - 1);
      assert leaves[..c + 1][..c] == leaves[..c];
      assert Weight(leaves[c]) <= Weight(leaves[i - 1]);
    }
  }

  /** Coins per denomination 2^j, j below `n`: leaf `i'` buys denominations limit - u[i'] and up. */
  function Purchase(u: seq<nat>, limit: nat, n: nat, i: nat): (xs: seq<nat>)
    requires i <= |u|
    ensures |xs| == n && forall j :: 0 <= j < n ==> xs[j] == AtLeast(u, limit - j, i) <= i
  {
    seq(n, j requires 0 <= j => AtLeast(u, limit - j, i))
  }

  lemma PlusOne(b: nat, p: nat)
    ensures (b + 1) * p == b * p + p
  {
  }

  lemma {:induction false} PurchaseWidth(u: seq<nat>, limit: nat, n: nat, i: nat)
    requires 0 < i <= |u| && n <= limit && u[i - 1] <= limit
    ensures Width(Purchase(u, limit, n, i)) == Width(Purchase(u, limit, n, i - 1))
      + if n > limit - u[i - 1] then Pow2(n) - Pow2(limit - u[i - 1]) else 0
    decreases n
  {
    if n > 0 {
      PurchaseWidth(u, limit, n - 1, i);
      var a, b := Purchase(u, limit, n, i), Purchase(u, limit, n, i - 1);
      assert a[..n - 1] == Purchase(u, limit, n - 1, i);
      assert b[..n - 1] == Purchase(u, limit, n - 1, i - 1);
      PlusOne(b[n - 1], Pow2(n - 1));
    }
  }

  /** Sum over denominations 2^j, j below `n`, of the weight bought there. */
  function PurchaseWeight(leaves: seq<Coin>, u: seq<nat>, limit: nat, n: nat, i: nat): nat
    requires i <= |u| == |leaves|
  {
    if n == 0 then 0
    else PurchaseWeight(leaves, u, limit, n - 1, i) + WeightAtLeast(leaves, u, limit - (n - 1), i)
  }

  lemma {:induction false} PurchaseWeightStep(leaves: seq<Coin>, u: seq<nat>, limit: nat, n: nat, i: nat)
    requires 0 < i <= |u| == |leaves| && n <= limit && u[i - 1] <= limit
    ensures PurchaseWeight(leaves, u, limit, n, i) == PurchaseWeight(leaves, u, limit, n, i - 1)
      + Weight(leaves[i - 1]) * if n > limit - u[i - 1] then n - (limit - u[i - 1]) else 0
    decreases n
  {
    if n > 0 {
      PurchaseWeightStep(leaves, u, limit, n - 1, i);
      var w := Weight(leaves[i - 1]);
      if n > limit - u[i - 1] {
        var e := n - 1 - (limit - u[i - 1]);
        assert w * (e + 1) == w * e + w;
      }
    }
  }

  lemma {:induction false} PurchaseHeavier(leaves: seq<Coin>, u: seq<nat>, limit: nat, n: nat)
    requires |u| == |leaves| && Ascending(leaves)
    ensures PurchaseWeight(leaves, u, limit, n, |u|) >= LightestCost(leaves, Purchase(u, limit, n, |u|))
  {
    if n > 0 {
      PurchaseHeavier(leaves, u, limit, n - 1);
      AnyHeavierThanLightest(leaves, u, limit - (n - 1), |u|);
      assert Purchase(u, limit, n, |u|)[..n - 1] == Purchase(u, limit, n - 1, |u|);
    }
  }

  // ----- cost and Kraft sum of length vectors -----

  function Products(weights: seq<nat>, lens: seq<nat>): (r: seq<nat>)
    requires |weights| == |lens|
    ensures |r| == |lens| && forall i :: 0 <= i < |lens| ==> r[i] == weights[i] * lens[i]
  {
    seq(|lens|, i requires 0 <= i < |lens| => weights[i] * lens[i])
  }

  /** Total coded size: sum of weight times length. */
  function Cost(weights: seq<nat>, lens: seq<nat>): nat
    requires |weights| == |lens|
  {
    Sum(Products(weights, lens))
  }

  function Shares(lens: seq<nat>, limit: nat): (r: seq<nat>)
    requires forall i :: 0 <= i < |lens| ==> lens[i] <= limit
    ensures |r| == |lens| && forall i :: 0 <= i < |lens| ==> r[i] == Pow2(limit - lens[i])
  {
    seq(|lens|, i requires 0 <= i < |lens| => Pow2(limit - lens[i]))
  }

  /** The Kraft sum in units of 2^-limit. */
  function Kraft(lens: seq<nat>, limit: nat): nat
    requires forall i :: 0 <= i < |lens| ==> lens[i] <= limit
  {
    Sum(Shares(lens, limit))
  }

  lemma {:induction false} PurchaseOf(leaves: seq<Coin>, u: seq<nat>, limit: nat, i: nat)
    requires i <= |u| == |leaves| && forall j :: 0 <= j < |u| ==> u[j] <= limit
    ensures Width(Purchase(u, limit, limit, i)) + Sum(Shares(u, limit)[..i]) == i * Pow2(limit)
    ensures PurchaseWeight(leaves, u, limit, limit, i) == Sum(Products(WeightsOf(leaves), u)[..i])
  {
    hide Purchase, PurchaseWeight, Width, Weight, Pow2;
    if i == 0 {
      EmptyPurchase(leaves, u, limit, limit);
    } else {
      PurchaseOf(leaves, u, limit, i - 1);
      PurchaseWidth(u, limit, limit, i);
      PurchaseWeightStep(leaves, u, limit, limit, i);
      var a, b := Shares(u, limit)[..i], Products(WeightsOf(leaves), u)[..i];
      assert a[..i - 1] == Shares(u, limit)[..i - 1];
      assert b[..i - 1] == Products(WeightsOf(leaves), u)[..i - 1];
      PlusOne(i - 1, Pow2(limit));
    }
  }

  lemma {:induction false} EmptyPurchase(leaves: seq<Coin>, u: seq<nat>, limit: nat, n: nat)
    requires |u| == |leaves|
    ensures Width(Purchase(u, limit, n, 0)) == 0 && PurchaseWeight(leaves, u, limit, n, 0) == 0
  {
    if n > 0 {
      EmptyPurchase(leaves, u, limit, n - 1);
      assert Purchase(u, limit, n, 0)[..n - 1] == Purchase(u, limit, n - 1, 0);
    }
  }

  function WeightsOf(leaves: seq<Coin>): (r: seq<nat>)
    ensures |r| == |leaves| && forall i :: 0 <= i < |leaves| ==> r[i] == Weight(leaves[i])
  {
    seq(|leaves|, i requires 0 <= i < |leaves| => Weight(leaves[i]))
  }

  /** In rank order: no admissible length vector is cheaper than the first 2m - 2 coins. */
  lemma OptimalByRank(leaves: seq<Coin>, u: seq<nat>, limit: nat)
    requires limit >= 1 && |u| == |leaves| >= 2 && Ascending(leaves)
    requires (forall j :: 0 <= j < |u| ==> u[j] <= limit) && Kraft(u, limit) <= Pow2(limit)
    ensures 2 * |leaves| - 2 <= |Level(leaves, limit)|
    ensures Cost(WeightsOf(leaves), u) >= TotalWeight(Level(leaves, limit)[..2 * |leaves| - 2])
  {
    hide Level, TotalWeight, LightestCost, PurchaseWeight, Width, Sum, Ascending, Shares, Products;
    var m := |leaves|;
    PurchaseOf(leaves, u, limit, m);
    assert Shares(u, limit)[..m] == Shares(u, limit);
    assert Products(WeightsOf(leaves), u)[..m] == Products(WeightsOf(leaves), u);
    WidthBound(m, Pow2(limit), Pow2(limit - 1));
    Cheapest(leaves, Purchase(u, limit, limit, m), limit, 2 * m - 2);
    PurchaseHeavier(leaves, u, limit, limit);
  }

  lemma WidthBound(m: nat, p: nat, h: nat)
    requires p == 2 * h && m >= 2
    ensures m * p - p == (2 * m - 2) * h
  {
  }

  // ----- Kraft sum and cost of what is bought -----

  lemma {:induction false} CoveredIsKraft(leaves: seq<Coin>, t: nat, k: nat, u: seq<nat>, i: nat)
    requires t >= 1 && k <= |Level(leaves, t)| && i <= |u|
    requires forall j :: 0 <= j < |u| ==> u[j] == Bought(leaves, t, k, j)
    ensures forall j :: 0 <= j < |u| ==> u[j] <= t
    ensures Covered(leaves, t, k, i) + Sum(Shares(u, t)[..i]) == i * Pow2(t)
  {
    hide Level, Bought, Pow2;
    if i > 0 {
      CoveredIsKraft(leaves, t, k, u, i - 1);
      assert Shares(u, t)[..i][..i - 1] == Shares(u, t)[..i - 1];
      PlusOne(i - 1, Pow2(t));
    }
  }

  /** In rank order, the Kraft sum of the bought lengths is exactly 1. */
  lemma KraftOfBought(leaves: seq<Coin>, limit: nat, u: seq<nat>)
    requires limit >= 1 && |u| == |leaves| >= 2 && Ascending(leaves) && 2 * |leaves| - 2 <= |Level(leaves, limit)|
    requires forall j :: 0 <= j < |u| ==> u[j] == Bought(leaves, limit, 2 * |leaves| - 2, j)
    ensures (forall j :: 0 <= j < |u| ==> u[j] <= limit) && Kraft(u, limit) == Pow2(limit)
  {
    hide Level, Bought, Covered, Sum, Ascending;
    var m := |leaves|;
    CoveredIsKraft(leaves, limit, 2 * m - 2, u, m);
    CoveredAll(leaves, limit, 2 * m - 2);
    WidthBound(m, Pow2(limit), Pow2(limit - 1));
    assert Shares(u, limit)[..m] == Shares(u, limit);
  }

  /** Weight bought below leaf `i`. */
  ghost function BoughtWeight(leaves: seq<Coin>, t: nat, k: nat, i: nat): int
    requires t >= 1 && k <= |Level(leaves, t)| && i <= |leaves|
  {
    if i == 0 then 0
    else BoughtWeight(leaves, t, k, i - 1) + Weight(leaves[i - 1]) * Bought(leaves, t, k, i - 1)
  }

  lemma Distribute(w: nat, b: nat)
    ensures w * (1 + b) == w + w * b && w * (0 + b) == w * b
  {
  }

  lemma {:induction false} BoughtWeightStep(leaves: seq<Coin>, t: nat, k: nat, x: nat, i: nat)
    requires t > 1 && k <= |Level(leaves, t)| && i <= |leaves| && x == Taken(leaves, t, k)
    ensures BoughtWeight(leaves, t, k, i)
      == TotalWeight(leaves[..if i < x then i else x]) + BoughtWeight(leaves, t - 1, 2 * (k - x), i)
  {
    hide Weight, Merge, FromLeft;
    if i > 0 {
      BoughtWeightStep(leaves, t, k, x, i - 1);
      assert leaves[..i][..i - 1] == leaves[..i - 1];
      Distribute(Weight(leaves[i - 1]), Bought(leaves, t - 1, 2 * (k - x), i - 1));
    }
  }

  lemma {:induction false} BoughtWeightFirst(leaves: seq<Coin>, k: nat, i: nat)
    requires k <= |leaves| && i <= |leaves|
    ensures BoughtWeight(leaves, 1, k, i) == TotalWeight(leaves[..if i < k then i else k])
  {
    if i > 0 {
      BoughtWeightFirst(leaves, k, i - 1);
      assert leaves[..i][..i - 1] == leaves[..i - 1];
    }
  }

  lemma {:induction false} BoughtWeightAll(leaves: seq<Coin>, t: nat, k: nat)
    requires t >= 1 && k <= |Level(leaves, t)|
    ensures BoughtWeight(leaves, t, k, |leaves|) == TotalWeight(Level(leaves, t)[..k])
  {
    hide BoughtWeight, TotalWeight, Merge;
    if t == 1 {
      BoughtWeightFirst(leaves, k, |leaves|);
    } else {
      var x := Taken(leaves, t, k);
      var below := Level(leaves, t - 1);
      BoughtWeightStep(leaves, t, k, x, |leaves|);
      BoughtWeightAll(leaves, t - 1, 2 * (k - x));
      TotalsMerge(leaves, Pairs(below), k, x, k - x, 0);
      TotalsPairs(below, k - x, 0);
    }
  }

  lemma {:induction false} BoughtWeightIsCost(leaves: seq<Coin>, t: nat, k: nat, u: seq<nat>, i: nat)
    requires t >= 1 && k <= |Level(leaves, t)| && i <= |u| == |leaves|
    requires forall j :: 0 <= j < |u| ==> u[j] == Bought(leaves, t, k, j)
    ensures BoughtWeight(leaves, t, k, i) == Sum(Products(WeightsOf(leaves), u)[..i])
  {
    if i > 0 {
      BoughtWeightIsCost(leaves, t, k, u, i - 1);
      var p := Products(WeightsOf(leaves), u);
      assert p[..i][..i - 1] == p[..i - 1];
    }
  }

  /** In rank order, the cost of the bought lengths is the weight of the bought coins. */
  lemma CostOfBought(leaves: seq<Coin>, t: nat, k: nat, u: seq<nat>)
    requires t >= 1 && k <= |Level(leaves, t)| && |u| == |leaves|
    requires forall j :: 0 <= j < |u| ==> u[j] == Bought(leaves, t, k, j)
    ensures Cost(WeightsOf(leaves), u) == TotalWeight(Level(leaves, t)[..k])
  {
    BoughtWeightIsCost(leaves, t, k, u, |u|);
    BoughtWeightAll(leaves, t, k);
    assert Products(WeightsOf(leaves), u)[..|u|] == Products(WeightsOf(leaves), u);
  }
}
