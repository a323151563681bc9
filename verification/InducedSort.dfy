/** Induced sorting: LMS seeds at the ends of their buckets determine the order of all suffixes.

    Both passes fill in the sorted list `f` of the induced order. The left-to-right pass reads
    a position at its final slot before its L-type predecessor is placed; the right-to-left pass
    does the same for S-type predecessors and overwrites the seeds before it reaches them.
 */
module InducedSort {
  import opened SuffixOrder
  import opened InducedOrder

  /** The mark of a slot that no suffix has been placed in. */
  const EMPTY: nat := 0xFFFF_FFFF

  ghost predicate Counted(s: seq<nat>, counts: seq<nat>) {
    && (forall i :: 0 <= i < |s| ==> s[i] < |counts|)
    && (forall c :: 0 <= c < |counts| ==> counts[c] == Below(s, 2 * c + 2) - Below(s, 2 * c))
  }

  // ----- bucket helpers -----

  ghost function Occurrences(s: seq<nat>, c: nat, m: nat): (r: set<nat>)
    requires m <= |s|
  {
    set i: nat | 0 <= i < m && s[i] == c
  }

  lemma OccurrencesBelow(s: seq<nat>, c: nat)
    ensures |Occurrences(s, c, |s|)| == Below(s, 2 * c + 2) - Below(s, 2 * c)
  {
    var a, b, o := PositionsBelow(s, 2 * c), PositionsBelow(s, 2 * c + 2), Occurrences(s, c, |s|);
    assert b == a + o;
    assert a !! o;
    BelowSize(s, 2 * c);
    BelowSize(s, 2 * c + 2);
  }

  method Counts(s: seq<nat>, k: nat) returns (counts: seq<nat>)
    requires forall i :: 0 <= i < |s| ==> s[i] < k
    ensures |counts| == k && Counted(s, counts)
  {
    counts := seq(k, _ => 0);
    for i := 0 to |s|
      invariant |counts| == k
      invariant forall c :: 0 <= c < k ==> counts[c] == |Occurrences(s, c, i)|
    {
      forall c: nat | 0 <= c < k
        ensures |Occurrences(s, c, i + 1)| == |Occurrences(s, c, i)| + if c == s[i] then 1 else 0
      {
        if c == s[i] {
          assert Occurrences(s, c, i + 1) == Occurrences(s, c, i) + {i};
        } else {
          assert Occurrences(s, c, i + 1) == Occurrences(s, c, i);
        }
      }
      counts := counts[s[i] := counts[s[i]] + 1];
    }
    forall c: nat | 0 <= c < k ensures counts[c] == Below(s, 2 * c + 2) - Below(s, 2 * c) {
      OccurrencesBelow(s, c);
    }
  }

  lemma {:induction false} BelowZero(s: seq<nat>)
    ensures Below(s, 0) == 0
  {
    BelowSize(s, 0);
    assert PositionsBelow(s, 0) == {};
  }

  method BucketStarts(s: seq<nat>, counts: seq<nat>) returns (starts: seq<nat>)
    requires Counted(s, counts)
    ensures |starts| == |counts| && forall c :: 0 <= c < |counts| ==> starts[c] == Below(s, 2 * c)
  {
    starts := [];
    var sum := 0;
    BelowZero(s);
    for c := 0 to |counts|
      invariant |starts| == c && sum == Below(s, 2 * c)
      invariant forall d :: 0 <= d < c ==> starts[d] == Below(s, 2 * d)
    {
      starts := starts + [sum];
      BelowMono(s, 2 * c, 2 * c + 2);
      sum := sum + counts[c];
    }
  }

  method BucketEnds(s: seq<nat>, counts: seq<nat>) returns (ends: seq<nat>)
    requires Counted(s, counts)
    ensures |ends| == |counts| && forall c :: 0 <= c < |counts| ==> ends[c] == Below(s, 2 * c + 2)
  {
    ends := [];
    var sum := 0;
    BelowZero(s);
    for c := 0 to |counts|
      invariant |ends| == c && sum == Below(s, 2 * c)
      invariant forall d :: 0 <= d < c ==> ends[d] == Below(s, 2 * d + 2)
    {
      BelowMono(s, 2 * c, 2 * c + 2);
      sum := sum + counts[c];
      ends := ends + [sum];
    }
  }

  // ----- seeds -----

  ghost predicate SeedHome(s: seq<nat>, a: seq<nat>, rk: seq<int>, p: nat)
    requires |a| == |rk| == |s| && p < |s|
  {
    Lms(s, p) ==>
      0 <= rk[p] < |s| && Below(s, 2 * s[p] + 1) <= rk[p] < Below(s, 2 * s[p] + 2) && a[rk[p]] == p
  }

  ghost predicate SeedSlot(s: seq<nat>, a: seq<nat>, rk: seq<int>, q: nat)
    requires |a| == |rk| == |s| && q < |s|
  {
    a[q] != EMPTY ==> a[q] < |s| && Lms(s, a[q]) && rk[a[q]] == q
  }

  /** `a` holds the LMS positions at their ranks, in the S part of their buckets, and nothing else. */
  ghost predicate Seeds(s: seq<nat>, a: seq<nat>, rk: seq<int>) {
    && |a| == |rk| == |s|
    && (forall p :: 0 <= p < |s| ==> SeedHome(s, a, rk, p))
    && (forall q :: 0 <= q < |s| ==> SeedSlot(s, a, rk, q))
  }

  lemma SeedsRank(s: seq<nat>, a: seq<nat>, rk: seq<int>)
    requires Seeds(s, a, rk)
    ensures Ranking(s, rk)
  {
    forall p, q | 0 <= p < |s| && 0 <= q < |s| && Lms(s, p) && Lms(s, q)
      ensures s[p] < s[q] ==> rk[p] < rk[q]
      ensures rk[p] == rk[q] ==> p == q
    {
      assert SeedHome(s, a, rk, p) && SeedHome(s, a, rk, q);
      if s[p] < s[q] { BelowMono(s, 2 * s[p] + 2, 2 * s[q] + 1); }
    }
  }

  /** `order` lists the LMS positions, each once. */
  ghost predicate Listing(s: seq<nat>, order: seq<nat>) {
    && (forall a :: 0 <= a < |order| ==> order[a] < |s| && Lms(s, order[a]))
    && (forall a, b :: 0 <= a < b < |order| ==> order[a] != order[b])
    && (forall p :: 0 <= p < |s| && Lms(s, p) ==> p in order)
  }

  /** How many of the seeds `order[i..]` fall into bucket `c`. */
  ghost function SeedCount(s: seq<nat>, order: seq<nat>, i: nat, c: nat): nat
    requires i <= |order| && forall b :: 0 <= b < |order| ==> order[b] < |s|
    decreases |order| - i
  {
    if i == |order| then 0 else SeedCount(s, order, i + 1, c) + if s[order[i]] == c then 1 else 0
  }

  lemma {:induction false} SeedCountSize(s: seq<nat>, order: seq<nat>, i: nat, c: nat) returns (r: set<nat>)
    requires Listing(s, order) && i <= |order|
    ensures |r| == SeedCount(s, order, i, c)
    ensures forall x :: x in r ==> x < |s| && Lms(s, x) && s[x] == c && exists b :: i <= b < |order| && order[b] == x
    decreases |order| - i
  {
    hide SType;
    r := {};
    if i < |order| {
      r := SeedCountSize(s, order, i + 1, c);
      if s[order[i]] == c {
        assert order[i] !in r;
        r := r + {order[i]};
      }
    }
  }

  lemma DifferenceSize<T>(a: set<T>, b: set<T>)
    requires a <= b
    ensures |b - a| == |b| - |a|
  {
    assert b == a + (b - a);
  }

  /** The S part of a bucket has room for all its LMS positions. */
  lemma SeedCapacity(s: seq<nat>, order: seq<nat>, i: nat, c: nat)
    requires Listing(s, order) && i <= |order|
    ensures SeedCount(s, order, i, c) <= Below(s, 2 * c + 2) - Below(s, 2 * c + 1)
  {
    var a, b := PositionsBelow(s, 2 * c + 1), PositionsBelow(s, 2 * c + 2);
    var r := SeedCountSize(s, order, i, c);
    forall x | x in r ensures x in b && x !in a { KeyParts(s, x, c); }
    SubsetSize(r, b - a);
    DifferenceSize(a, b);
    BelowSize(s, 2 * c + 1);
    BelowSize(s, 2 * c + 2);
  }

  /** The slot of the seed `order[b]`: as many slots from the bucket's end as seeds of that bucket follow. */
  ghost function Home(s: seq<nat>, order: seq<nat>, b: nat): (q: nat)
    requires Listing(s, order) && b < |order|
    ensures Below(s, 2 * s[order[b]] + 1) <= q < Below(s, 2 * s[order[b]] + 2) <= |s|
    ensures q + SeedCount(s, order, b, s[order[b]]) == Below(s, 2 * s[order[b]] + 2)
  {
    var c := s[order[b]];
    SeedCapacity(s, order, b, c);
    BelowMono(s, 2 * c + 2, 2 * c + 2);
    Below(s, 2 * c + 2) - SeedCount(s, order, b, c)
  }

  lemma {:induction false} SeedCountMono(s: seq<nat>, order: seq<nat>, b: nat, d: nat, c: nat)
    requires Listing(s, order) && b <= d <= |order|
    ensures SeedCount(s, order, d, c) <= SeedCount(s, order, b, c)
    decreases d - b
  {
    if b < d { SeedCountMono(s, order, b + 1, d, c); }
  }

  lemma BucketsApart(s: seq<nat>, c: nat, d: nat, slot: nat)
    requires Below(s, 2 * c + 1) <= slot < Below(s, 2 * c + 2)
    requires Below(s, 2 * d + 1) <= slot < Below(s, 2 * d + 2)
    ensures c == d
  {
    if d < c { BelowMono(s, 2 * d + 2, 2 * c + 1); }
    if c < d { BelowMono(s, 2 * c + 2, 2 * d + 1); }
  }

  lemma HomesAscend(s: seq<nat>, order: seq<nat>, b: nat, d: nat)
    requires Listing(s, order) && b < d < |order| && s[order[b]] == s[order[d]]
    ensures Home(s, order, b) < Home(s, order, d)
  {
    SeedCountMono(s, order, b + 1, d, s[order[b]]);
  }

  lemma HomesDiffer(s: seq<nat>, order: seq<nat>, b: nat, d: nat)
    requires Listing(s, order) && b < d < |order|
    ensures Home(s, order, b) != Home(s, order, d)
  {
    if Home(s, order, b) == Home(s, order, d) {
      BucketsApart(s, s[order[b]], s[order[d]], Home(s, order, b));
      HomesAscend(s, order, b, d);
    }
  }

  /** The seeds `order[i..]` are at their homes and every other slot is empty. */
  ghost predicate Seeded(s: seq<nat>, order: seq<nat>, i: nat, a: seq<nat>)
    requires Listing(s, order)
  {
    && |a| == |s|
    && (forall b :: i <= b < |order| ==> a[Home(s, order, b)] == order[b])
    && (forall q :: 0 <= q < |s| && a[q] != EMPTY ==> exists b :: i <= b < |order| && Home(s, order, b) == q)
  }

  lemma SeededStep(s: seq<nat>, order: seq<nat>, i: nat, j: nat, a: seq<nat>, a': seq<nat>)
    requires Listing(s, order) && j <= |order| && i == j - 1 && Seeded(s, order, j, a)
    requires a' == a[Home(s, order, i) := order[i]]
    ensures Seeded(s, order, i, a')
  {
    forall b | i <= b < |order| ensures a'[Home(s, order, b)] == order[b] {
      if b > i { HomesDiffer(s, order, i, b); }
    }
    forall q | 0 <= q < |s| && a'[q] != EMPTY ensures exists b :: i <= b < |order| && Home(s, order, b) == q {
      if q == Home(s, order, i) {
      } else {
        var b :| j <= b < |order| && Home(s, order, b) == q;
      }
    }
  }

  /** Rank every LMS position by its home. */
  lemma SeedRanks(s: seq<nat>, order: seq<nat>) returns (rk: seq<int>)
    requires Listing(s, order)
    ensures |rk| == |s| && forall b :: 0 <= b < |order| ==> rk[order[b]] == Home(s, order, b)
  {
    hide Home;
    rk := seq(|s|, p requires 0 <= p < |s| => if p in order then Home(s, order, IndexOf(order, p)) else 0);
    forall b | 0 <= b < |order| ensures rk[order[b]] == Home(s, order, b) {
      assert order[b] in order;
      assert IndexOf(order, order[b]) == b;
    }
  }

  lemma SeedAtHome(s: seq<nat>, order: seq<nat>, a: seq<nat>, rk: seq<int>, p: nat)
    requires Listing(s, order) && Seeded(s, order, 0, a) && |rk| == |s| && p < |s|
    requires forall b :: 0 <= b < |order| ==> rk[order[b]] == Home(s, order, b)
    ensures SeedHome(s, a, rk, p)
  {
    hide Home, SType, SeedCount;
    if Lms(s, p) {
      var b :| 0 <= b < |order| && order[b] == p;
    }
  }

  lemma SeedInSlot(s: seq<nat>, order: seq<nat>, a: seq<nat>, rk: seq<int>, q: nat)
    requires Listing(s, order) && Seeded(s, order, 0, a) && |rk| == |s| && q < |s|
    requires forall b :: 0 <= b < |order| ==> rk[order[b]] == Home(s, order, b)
    ensures SeedSlot(s, a, rk, q)
  {
    hide Home, SType, SeedCount;
    if a[q] != EMPTY {
      var b :| 0 <= b < |order| && Home(s, order, b) == q;
    }
  }

  lemma SeededIsSeeds(s: seq<nat>, order: seq<nat>, a: seq<nat>) returns (rk: seq<int>)
    requires Listing(s, order) && Seeded(s, order, 0, a)
    ensures Seeds(s, a, rk) && RanksFollow(s, order, rk)
  {
    hide Home, SeedHome, SeedSlot, SType, SeedCount;
    rk := SeedRanks(s, order);
    forall p | 0 <= p < |s| ensures SeedHome(s, a, rk, p) { SeedAtHome(s, order, a, rk, p); }
    forall q | 0 <= q < |s| ensures SeedSlot(s, a, rk, q) { SeedInSlot(s, order, a, rk, q); }
    forall b, d | 0 <= b < d < |order| && s[order[b]] == s[order[d]] ensures rk[order[b]] < rk[order[d]] {
      HomesAscend(s, order, b, d);
    }
  }

  /** Within a bucket, seeds later in `order` stand higher. */
  ghost predicate RanksFollow(s: seq<nat>, order: seq<nat>, rk: seq<int>)
    requires Listing(s, order) && |rk| == |s|
  {
    forall b, d :: 0 <= b < d < |order| && s[order[b]] == s[order[d]] ==> rk[order[b]] < rk[order[d]]
  }

  /** Place the LMS positions, listed in `order`, at the ends of their buckets; later ones higher. */
  method PlaceSeeds(s: seq<nat>, sa: array<nat>, counts: seq<nat>, order: seq<nat>) returns (ghost rk: seq<int>)
    requires Counted(s, counts) && Listing(s, order) && sa.Length == |s|
    requires forall q :: 0 <= q < sa.Length ==> sa[q] == EMPTY
    modifies sa
    ensures Seeds(s, sa[..], rk) && RanksFollow(s, order, rk)
  {
    var bucket := BucketEnds(s, counts);
    var i: nat := |order|;
    while i > 0
      invariant i <= |order| && |bucket| == |counts|
      invariant forall c :: 0 <= c < |bucket| ==> bucket[c] + SeedCount(s, order, i, c) == Below(s, 2 * c + 2)
      invariant Seeded(s, order, i, sa[..])
    {
      ghost var j, a := i, sa[..];
      i := i - 1;
      var c := s[order[i]];
      assert bucket[c] == Home(s, order, i) + 1;
      bucket := bucket[c := bucket[c] - 1];
      sa[bucket[c]] := order[i];
      SeededStep(s, order, i, j, a, sa[..]);
    }
    rk := SeededIsSeeds(s, order, sa[..]);
  }

  // ----- the two passes -----

  /** The target of the passes, and the seeds they start from. */
  ghost predicate Target(s: seq<nat>, seeds: seq<nat>, rk: seq<int>, f: seq<nat>, at: seq<nat>) {
    Terminated(s) && |s| <= EMPTY && Seeds(s, seeds, rk) && Ranking(s, rk) && Sorted(s, rk, f, at)
  }

  lemma OrderAt(s: seq<nat>, rk: seq<int>, f: seq<nat>, at: seq<nat>, x: nat, y: nat)
    requires Terminated(s) && Ranking(s, rk) && Sorted(s, rk, f, at) && x < |s| && y < |s|
    ensures InducedLess(s, rk, x, y) <==> at[x] < at[y]
  {
    assert f[at[x]] == x && f[at[y]] == y;
    if x == y {
      InducedIrreflexive(s, rk, x);
    } else {
      InducedTotal(s, rk, x, y);
    }
  }

  lemma ZoneOf(s: seq<nat>, rk: seq<int>, f: seq<nat>, at: seq<nat>, q: nat)
    requires Sorted(s, rk, f, at) && q < |s|
    ensures !SType(s, f[q]) ==> Below(s, 2 * s[f[q]]) <= q < Below(s, 2 * s[f[q]] + 1)
    ensures SType(s, f[q]) ==> Below(s, 2 * s[f[q]] + 1) <= q < Below(s, 2 * s[f[q]] + 2)
  {
    BucketSlots(s, rk, f, at, q, Key(s, f[q]));
    BucketSlots(s, rk, f, at, q, Key(s, f[q]) + 1);
  }

  lemma InZone(s: seq<nat>, rk: seq<int>, f: seq<nat>, at: seq<nat>, q: nat, k: nat)
    requires Sorted(s, rk, f, at) && q < |s| && Below(s, k) <= q < Below(s, k + 1)
    ensures Key(s, f[q]) == k
  {
    BucketSlots(s, rk, f, at, q, k);
    BucketSlots(s, rk, f, at, q, k + 1);
  }

  /** Where the left-to-right pass meets a core position: LMS positions at their seed, the rest in place. */
  ghost function Slot(s: seq<nat>, rk: seq<int>, at: seq<nat>, x: nat): int
    requires |rk| == |at| == |s| && x < |s|
  {
    if Lms(s, x) then rk[x] else at[x]
  }

  lemma SlotOrder(s: seq<nat>, seeds: seq<nat>, rk: seq<int>, f: seq<nat>, at: seq<nat>, x: nat, y: nat)
    requires Target(s, seeds, rk, f, at) && x < |s| && y < |s| && Core(s, x) && Core(s, y)
    requires CoreLess(s, rk, x, y)
    ensures Slot(s, rk, at, x) < Slot(s, rk, at, y)
  {
    assert f[at[x]] == x && f[at[y]] == y;
    assert SeedHome(s, seeds, rk, x) && SeedHome(s, seeds, rk, y);
    if Lms(s, x) == Lms(s, y) {
      if !Lms(s, x) { OrderAt(s, rk, f, at, x, y); }
    } else if Lms(s, x) {
      ZoneOf(s, rk, f, at, at[y]);
      BelowMono(s, 2 * s[x] + 2, 2 * s[y]);
    } else {
      ZoneOf(s, rk, f, at, at[x]);
      BelowMono(s, 2 * s[x] + 1, 2 * s[y] + 1);
    }
  }

  lemma SlotsDiffer(s: seq<nat>, seeds: seq<nat>, rk: seq<int>, f: seq<nat>, at: seq<nat>, x: nat, y: nat)
    requires Target(s, seeds, rk, f, at) && x < |s| && y < |s| && Core(s, x) && Core(s, y) && x != y
    ensures Slot(s, rk, at, x) != Slot(s, rk, at, y)
  {
    CoreTotal(s, rk, x, y);
    if CoreLess(s, rk, x, y) {
      SlotOrder(s, seeds, rk, f, at, x, y);
    } else {
      SlotOrder(s, seeds, rk, f, at, y, x);
    }
  }

  /** An L-type position's successor is met before the slot it belongs in. */
  lemma SuccessorSlot(s: seq<nat>, seeds: seq<nat>, rk: seq<int>, f: seq<nat>, at: seq<nat>, x: nat)
    requires Target(s, seeds, rk, f, at) && x < |s| && !SType(s, x)
    ensures x + 1 < |s| && Core(s, x + 1) && 0 <= Slot(s, rk, at, x + 1) < at[x]
  {
    hide Below, Less, CoreLess, InducedLess, Ranking;
    assert f[at[x]] == x;
    if SType(s, x + 1) {
      assert SeedHome(s, seeds, rk, x + 1);
      ZoneOf(s, rk, f, at, at[x]);
      BelowMono(s, 2 * s[x + 1] + 2, 2 * s[x]);
    } else {
      SuccessorFirst(s, rk, x);
      SlotOrder(s, seeds, rk, f, at, x + 1, x);
    }
  }

  /** Slot `q` when the left-to-right pass has read the slots below `i`. */
  ghost predicate LeftSlot(s: seq<nat>, seeds: seq<nat>, rk: seq<int>, f: seq<nat>, at: seq<nat>,
                           a: seq<nat>, bucket: seq<nat>, i: nat, q: nat)
    requires Target(s, seeds, rk, f, at) && |a| == |s| && q < |s|
  {
    var x := f[q];
    if SType(s, x) then a[q] == seeds[q]
    else
      && s[x] < |bucket| && x + 1 < |s|
      && (q < bucket[s[x]] <==> Slot(s, rk, at, x + 1) < i)
      && a[q] == if q < bucket[s[x]] then x else EMPTY
  }

  ghost predicate LeftState(s: seq<nat>, seeds: seq<nat>, rk: seq<int>, f: seq<nat>, at: seq<nat>,
                            a: seq<nat>, bucket: seq<nat>, i: nat)
    requires Target(s, seeds, rk, f, at)
  {
    && |a| == |s|
    && (forall c :: 0 <= c < |bucket| ==> bucket[c] >= Below(s, 2 * c))
    && (forall q :: 0 <= q < |s| ==> LeftSlot(s, seeds, rk, f, at, a, bucket, i, q))
  }

  lemma LeftStart(s: seq<nat>, seeds: seq<nat>, rk: seq<int>, f: seq<nat>, at: seq<nat>, bucket: seq<nat>)
    requires Target(s, seeds, rk, f, at)
    requires forall p :: 0 <= p < |s| ==> s[p] < |bucket|
    requires forall c :: 0 <= c < |bucket| ==> bucket[c] == Below(s, 2 * c)
    ensures LeftState(s, seeds, rk, f, at, seeds, bucket, 0)
  {
    forall q | 0 <= q < |s| ensures LeftSlot(s, seeds, rk, f, at, seeds, bucket, 0, q) {
      var x := f[q];
      if !SType(s, x) {
        SuccessorSlot(s, seeds, rk, f, at, x);
        ZoneOf(s, rk, f, at, q);
        assert SeedSlot(s, seeds, rk, q);
        if seeds[q] != EMPTY {
          var p := seeds[q];
          assert SeedHome(s, seeds, rk, p);
          InZone(s, rk, f, at, q, 2 * s[p] + 1);
          KeyParts(s, x, s[p]);
        }
      }
    }
  }

  /** What the left-to-right pass reads at slot `i`. */
  lemma LeftRead(s: seq<nat>, seeds: seq<nat>, rk: seq<int>, f: seq<nat>, at: seq<nat>,
                 a: seq<nat>, bucket: seq<nat>, i: nat)
    requires Target(s, seeds, rk, f, at) && i < |s| && LeftState(s, seeds, rk, f, at, a, bucket, i)
    ensures a[i] != EMPTY ==> a[i] < |s| && Core(s, a[i]) && Slot(s, rk, at, a[i]) == i
    ensures forall x :: 0 <= x < |s| && Core(s, x) && Slot(s, rk, at, x) == i ==> a[i] == x
  {
    assert LeftSlot(s, seeds, rk, f, at, a, bucket, i, i);
    assert SeedSlot(s, seeds, rk, i);
    if !SType(s, f[i]) { SuccessorSlot(s, seeds, rk, f, at, f[i]); }
    forall x | 0 <= x < |s| && Core(s, x) && Slot(s, rk, at, x) == i ensures a[i] == x {
      assert SeedHome(s, seeds, rk, x);
      assert f[at[x]] == x;
      if Lms(s, x) { InZone(s, rk, f, at, i, 2 * s[x] + 1); }
    }
  }

  /** Of two L-type positions with the same symbol, the first one's successor is met first. */
  lemma LeftMonotone(s: seq<nat>, seeds: seq<nat>, rk: seq<int>, f: seq<nat>, at: seq<nat>, y: nat, j: nat)
    requires Target(s, seeds, rk, f, at) && y < |s| && j < |s|
    requires !SType(s, y) && !SType(s, j) && s[y] == s[j] && at[y] < at[j]
    ensures y + 1 < |s| && j + 1 < |s| && Slot(s, rk, at, y + 1) < Slot(s, rk, at, j + 1)
  {
    hide Below, Seeds, Less;
    OrderAt(s, rk, f, at, y, j);
    SlotOrder(s, seeds, rk, f, at, y + 1, j + 1);
  }

  /** The next free slot of its bucket is where the sorted list has the predecessor. */
  lemma LeftTarget(s: seq<nat>, seeds: seq<nat>, rk: seq<int>, f: seq<nat>, at: seq<nat>,
                   a: seq<nat>, bucket: seq<nat>, i: nat, j: nat)
    requires Target(s, seeds, rk, f, at) && i < |s| && LeftState(s, seeds, rk, f, at, a, bucket, i)
    requires j + 1 < |s| && !SType(s, j) && Core(s, j + 1) && Slot(s, rk, at, j + 1) == i
    ensures s[j] < |bucket| && bucket[s[j]] == at[j]
  {
    hide Below, Less, CoreLess, Seeds, SType;
    assert f[at[j]] == j;
    assert LeftSlot(s, seeds, rk, f, at, a, bucket, i, at[j]);
    ZoneOf(s, rk, f, at, at[j]);
    var t := bucket[s[j]];
    if t < at[j] {
      var y := f[t];
      InZone(s, rk, f, at, t, 2 * s[j]);
      KeyParts(s, y, s[j]);
      assert LeftSlot(s, seeds, rk, f, at, a, bucket, i, t);
      LeftMonotone(s, seeds, rk, f, at, y, j);
    }
  }

  lemma LeftPlace(s: seq<nat>, seeds: seq<nat>, rk: seq<int>, f: seq<nat>, at: seq<nat>,
                  a: seq<nat>, bucket: seq<nat>, i: nat, j: nat, i': nat)
    requires Target(s, seeds, rk, f, at) && i < |s| && LeftState(s, seeds, rk, f, at, a, bucket, i)
    requires j + 1 < |s| && !SType(s, j) && Core(s, j + 1) && Slot(s, rk, at, j + 1) == i && i' == i + 1
    requires s[j] < |bucket| && bucket[s[j]] == at[j]
    ensures LeftState(s, seeds, rk, f, at, a[at[j] := j], bucket[s[j] := at[j] + 1], i')
  {
    hide SType, Core, Below, Less, CoreLess, InducedLess, Seeds;
    var a', bucket' := a[at[j] := j], bucket[s[j] := at[j] + 1];
    forall q | 0 <= q < |s| ensures LeftSlot(s, seeds, rk, f, at, a', bucket', i', q) {
      assert LeftSlot(s, seeds, rk, f, at, a, bucket, i, q);
      assert f[at[j]] == j;
      var x := f[q];
      if !SType(s, x) && x != j {
        SuccessorSlot(s, seeds, rk, f, at, x);
        SlotsDiffer(s, seeds, rk, f, at, x + 1, j + 1);
      }
    }
  }

  lemma LeftSkip(s: seq<nat>, seeds: seq<nat>, rk: seq<int>, f: seq<nat>, at: seq<nat>,
                 a: seq<nat>, bucket: seq<nat>, i: nat, i': nat)
    requires Target(s, seeds, rk, f, at) && i < |s| && LeftState(s, seeds, rk, f, at, a, bucket, i) && i' == i + 1
    requires a[i] == EMPTY || a[i] == 0 || a[i] > |s| || SType(s, a[i] - 1)
    ensures LeftState(s, seeds, rk, f, at, a, bucket, i')
  {
    LeftRead(s, seeds, rk, f, at, a, bucket, i);
    forall q | 0 <= q < |s| ensures LeftSlot(s, seeds, rk, f, at, a, bucket, i', q) {
      assert LeftSlot(s, seeds, rk, f, at, a, bucket, i, q);
      if !SType(s, f[q]) { SuccessorSlot(s, seeds, rk, f, at, f[q]); }
    }
  }

  /** Slot `q` when the right-to-left pass has read the slots from `i` on. */
  ghost predicate RightSlot(s: seq<nat>, f: seq<nat>, at: seq<nat>, a: seq<nat>, bucket: seq<nat>, i: nat, q: nat)
    requires |a| == |f| == |at| == |s| && q < |s| && f[q] < |s|
  {
    var x := f[q];
    if !SType(s, x) || x == |s| - 1 then a[q] == x
    else
      && s[x] < |bucket|
      && (q >= bucket[s[x]] <==> at[x + 1] >= i)
      && (q >= bucket[s[x]] ==> a[q] == x)
  }

  ghost predicate RightState(s: seq<nat>, rk: seq<int>, f: seq<nat>, at: seq<nat>, a: seq<nat>, bucket: seq<nat>,
                             i: nat)
    requires Sorted(s, rk, f, at)
  {
    && |a| == |s|
    && (forall c :: 0 <= c < |bucket| ==> bucket[c] <= Below(s, 2 * c + 2))
    && (forall q :: 0 <= q < |s| ==> RightSlot(s, f, at, a, bucket, i, q))
  }

  lemma RightStart(s: seq<nat>, seeds: seq<nat>, rk: seq<int>, f: seq<nat>, at: seq<nat>,
                   a: seq<nat>, leftBucket: seq<nat>, bucket: seq<nat>)
    requires |s| >= 2 && Target(s, seeds, rk, f, at) && LeftState(s, seeds, rk, f, at, a, leftBucket, |s|)
    requires forall p :: 0 <= p < |s| ==> s[p] < |bucket|
    requires forall c :: 0 <= c < |bucket| ==> bucket[c] == Below(s, 2 * c + 2)
    ensures RightState(s, rk, f, at, a, bucket, |s|)
  {
    var last := |s| - 1;
    forall q | 0 <= q < |s| ensures RightSlot(s, f, at, a, bucket, |s|, q) {
      assert LeftSlot(s, seeds, rk, f, at, a, leftBucket, |s|, q);
      var x := f[q];
      ZoneOf(s, rk, f, at, q);
      if !SType(s, x) {
        SuccessorSlot(s, seeds, rk, f, at, x);
      } else if x == last {
        // the sentinel's bucket has one slot
        assert SeedHome(s, seeds, rk, last);
        InZone(s, rk, f, at, rk[last], 1);
        KeyParts(s, f[rk[last]], 0);
        assert at[f[rk[last]]] == rk[last];
      }
    }
  }

  lemma RightRead(s: seq<nat>, rk: seq<int>, f: seq<nat>, at: seq<nat>, a: seq<nat>, bucket: seq<nat>, i: nat, q: nat)
    requires Terminated(s) && Ranking(s, rk) && Sorted(s, rk, f, at)
    requires q < |s| && i == q + 1 && RightState(s, rk, f, at, a, bucket, i)
    ensures a[q] == f[q]
  {
    assert RightSlot(s, f, at, a, bucket, i, q);
    var x := f[q];
    if SType(s, x) && x != |s| - 1 {
      STypeBeforeSuccessor(s, rk, x);
      OrderAt(s, rk, f, at, x, x + 1);
    }
  }

  lemma RightTarget(s: seq<nat>, rk: seq<int>, f: seq<nat>, at: seq<nat>, a: seq<nat>, bucket: seq<nat>, i: nat, j: nat)
    requires Terminated(s) && Ranking(s, rk) && Sorted(s, rk, f, at) && RightState(s, rk, f, at, a, bucket, i)
    requires j + 1 < |s| && SType(s, j) && at[j + 1] == i - 1
    ensures s[j] < |bucket| && bucket[s[j]] == at[j] + 1
  {
    assert f[at[j]] == j;
    assert RightSlot(s, f, at, a, bucket, i, at[j]);
    ZoneOf(s, rk, f, at, at[j]);
    BelowMono(s, 2 * s[j] + 2, 2 * s[j] + 2);
    var t := bucket[s[j]] - 1;
    if at[j] < t {
      var y := f[t];
      InZone(s, rk, f, at, t, 2 * s[j] + 1);
      KeyParts(s, y, s[j]);
      assert RightSlot(s, f, at, a, bucket, i, t);
      assert y != |s| - 1;
      OrderAt(s, rk, f, at, j, y);
      OrderAt(s, rk, f, at, j + 1, y + 1);
    }
  }

  lemma RightPlace(s: seq<nat>, rk: seq<int>, f: seq<nat>, at: seq<nat>, a: seq<nat>, bucket: seq<nat>,
                   i: nat, j: nat, i': nat)
    requires Terminated(s) && Ranking(s, rk) && Sorted(s, rk, f, at) && RightState(s, rk, f, at, a, bucket, i)
    requires j + 1 < |s| && SType(s, j) && i' == i - 1 && at[j + 1] == i'
    requires s[j] < |bucket| && bucket[s[j]] == at[j] + 1
    ensures RightState(s, rk, f, at, a[at[j] := j], bucket[s[j] := at[j]], i')
  {
    var a', bucket' := a[at[j] := j], bucket[s[j] := at[j]];
    forall q | 0 <= q < |s| ensures RightSlot(s, f, at, a', bucket', i', q) {
      assert RightSlot(s, f, at, a, bucket, i, q);
      assert f[at[j]] == j;
      var x := f[q];
      if x != j && x != |s| - 1 { assert f[at[x + 1]] == x + 1; }
    }
  }

  lemma RightSkip(s: seq<nat>, rk: seq<int>, f: seq<nat>, at: seq<nat>, a: seq<nat>, bucket: seq<nat>, i: nat, i': nat)
    requires Terminated(s) && Ranking(s, rk) && Sorted(s, rk, f, at) && RightState(s, rk, f, at, a, bucket, i)
    requires i' == i - 1 && i' < |s| && (f[i'] == 0 || !SType(s, f[i'] - 1))
    ensures RightState(s, rk, f, at, a, bucket, i')
  {
    forall q | 0 <= q < |s| ensures RightSlot(s, f, at, a, bucket, i', q) {
      assert RightSlot(s, f, at, a, bucket, i, q);
      var x := f[q];
      if x != |s| - 1 { assert f[at[x + 1]] == x + 1; }
    }
  }

  /** First half of `induce`: L-type suffixes, left to right. */
  method LeftToRight(s: seq<nat>, sa: array<nat>, types: seq<bool>, counts: seq<nat>,
                     ghost seeds: seq<nat>, ghost rk: seq<int>, ghost f: seq<nat>, ghost at: seq<nat>)
    returns (ghost leftBucket: seq<nat>)
    requires Target(s, seeds, rk, f, at) && types == Types(s) && Counted(s, counts)
    requires sa.Length == |s| && sa[..] == seeds
    modifies sa
    ensures LeftState(s, seeds, rk, f, at, sa[..], leftBucket, |s|)
  {
    var bucket := BucketStarts(s, counts);
    LeftStart(s, seeds, rk, f, at, bucket);
    for i := 0 to |s|
      invariant |bucket| == |counts|
      invariant LeftState(s, seeds, rk, f, at, sa[..], bucket, i)
    {
      ghost var a, i' := sa[..], i + 1;
      LeftRead(s, seeds, rk, f, at, a, bucket, i);
      var p := sa[i];
      if p != EMPTY && p > 0 && !types[p - 1] {
        var j := p - 1;
        LeftTarget(s, seeds, rk, f, at, a, bucket, i, j);
        LeftPlace(s, seeds, rk, f, at, a, bucket, i, j, i');
        var c := s[j];
        sa[bucket[c]] := j;
        bucket := bucket[c := bucket[c] + 1];
        assert sa[..] == a[at[j] := j];
      } else {
        LeftSkip(s, seeds, rk, f, at, a, bucket, i, i');
      }
    }
    leftBucket := bucket;
  }

  /** Second half of `induce`: S-type suffixes, right to left. */
  method RightToLeft(s: seq<nat>, sa: array<nat>, types: seq<bool>, counts: seq<nat>,
                     ghost seeds: seq<nat>, ghost leftBucket: seq<nat>,
                     ghost rk: seq<int>, ghost f: seq<nat>, ghost at: seq<nat>)
    requires 2 <= |s| && Target(s, seeds, rk, f, at) && types == Types(s) && Counted(s, counts)
    requires sa.Length == |s| && LeftState(s, seeds, rk, f, at, sa[..], leftBucket, |s|)
    modifies sa
    ensures sa[..] == f
  {
    var bucket := BucketEnds(s, counts);
    RightStart(s, seeds, rk, f, at, sa[..], leftBucket, bucket);
    var i: nat := |s|;
    while i > 0
      invariant i <= |s| && |bucket| == |counts|
      invariant RightState(s, rk, f, at, sa[..], bucket, i)
    {
      ghost var a, i' := sa[..], i;
      i := i - 1;
      RightRead(s, rk, f, at, a, bucket, i', i);
      var p := sa[i];
      if p != EMPTY && p > 0 && types[p - 1] {
        var j := p - 1;
        RightTarget(s, rk, f, at, a, bucket, i', j);
        RightPlace(s, rk, f, at, a, bucket, i', j, i);
        var c := s[j];
        bucket := bucket[c := bucket[c] - 1];
        sa[bucket[c]] := j;
        assert sa[..] == a[at[j] := j];
      } else {
        RightSkip(s, rk, f, at, a, bucket, i', i);
      }
    }
    forall q | 0 <= q < |s| ensures sa[q] == f[q] {
      assert RightSlot(s, f, at, sa[..], bucket, 0, q);
    }
  }

  /** Sort all suffixes from the seeds in `sa`: L-type ones left to right, then S-type ones right to left. */
  method Induce(s: seq<nat>, sa: array<nat>, types: seq<bool>, counts: seq<nat>, ghost rk: seq<int>)
    returns (ghost at: seq<nat>)
    requires 2 <= |s| <= EMPTY && Terminated(s) && types == Types(s) && Counted(s, counts)
    requires sa.Length == |s| && Seeds(s, sa[..], rk)
    modifies sa
    ensures Sorted(s, rk, sa[..], at)
  {
    SeedsRank(s, sa[..], rk);
    ghost var f;
    f, at := SortedExists(s, rk);
    ghost var seeds := sa[..];
    ghost var leftBucket := LeftToRight(s, sa, types, counts, seeds, rk, f, at);
    RightToLeft(s, sa, types, counts, seeds, leftBucket, rk, f, at);
  }
}
