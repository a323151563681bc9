/** The order that induced sorting produces.

    A ranking `rk` of the LMS positions extends to all positions: compare symbols, then types,
    and step forward together until both reach an LMS position, where the ranks decide.
    `CoreLess` compares L-type and LMS positions (the left-to-right pass); `InducedLess` compares
    all positions and looks at a starting LMS position's whole substring (the right-to-left pass).
    A list sorted by this order is the target that the two passes of `induce` fill in.
 */
module InducedOrder {
  import opened Sequences
  import opened SuffixOrder

  /** Ranks tell LMS positions apart and respect their first symbol. */
  ghost predicate Ranking(s: seq<nat>, rk: seq<int>) {
    && |rk| == |s|
    && (forall p, q :: 0 <= p < |s| && 0 <= q < |s| && Lms(s, p) && Lms(s, q) && rk[p] == rk[q] ==> p == q)
    && (forall p, q :: 0 <= p < |s| && 0 <= q < |s| && Lms(s, p) && Lms(s, q) && s[p] < s[q] ==> rk[p] < rk[q])
  }

  ghost predicate CoreLess(s: seq<nat>, rk: seq<int>, i: nat, j: nat)
    requires |rk| == |s| && i < |s| && j < |s|
    decreases |s| - i
  {
    if Lms(s, i) && Lms(s, j) then rk[i] < rk[j]
    else if s[i] != s[j] then s[i] < s[j]
    else if SType(s, i) != SType(s, j) then !SType(s, i)
    else i + 1 < |s| && j + 1 < |s| && CoreLess(s, rk, i + 1, j + 1)
  }

  ghost predicate InducedLess(s: seq<nat>, rk: seq<int>, i: nat, j: nat)
    requires |rk| == |s| && i < |s| && j < |s|
    decreases |s| - i
  {
    if s[i] != s[j] then s[i] < s[j]
    else if SType(s, i) != SType(s, j) then !SType(s, i)
    else if i + 1 < |s| && j + 1 < |s| then
      if SType(s, i) then InducedLess(s, rk, i + 1, j + 1) else CoreLess(s, rk, i + 1, j + 1)
    else false
  }

  // ----- CoreLess is a strict total order on core positions -----

  lemma {:induction false} CoreTotal(s: seq<nat>, rk: seq<int>, i: nat, j: nat)
    requires Terminated(s) && Ranking(s, rk)
    requires i < |s| && j < |s| && i != j && Core(s, i) && Core(s, j)
    ensures CoreLess(s, rk, i, j) != CoreLess(s, rk, j, i)
    decreases |s| - i
  {
    if !(Lms(s, i) && Lms(s, j)) && s[i] == s[j] && SType(s, i) == SType(s, j) {
      CoreTotal(s, rk, i + 1, j + 1);
    }
  }

  lemma {:induction false} CoreTransitive(s: seq<nat>, rk: seq<int>, i: nat, j: nat, k: nat)
    requires Terminated(s) && Ranking(s, rk)
    requires i < |s| && j < |s| && k < |s| && Core(s, i) && Core(s, j) && Core(s, k)
    requires CoreLess(s, rk, i, j) && CoreLess(s, rk, j, k)
    ensures CoreLess(s, rk, i, k)
    decreases |s| - i
  {
    if s[i] == s[j] == s[k] && !SType(s, i) && !SType(s, k) {
      CoreTransitive(s, rk, i + 1, j + 1, k + 1);
    }
  }

  /** An L-type position follows its successor in the order. */
  lemma {:induction false} SuccessorFirst(s: seq<nat>, rk: seq<int>, i: nat)
    requires Terminated(s) && Ranking(s, rk)
    requires i + 1 < |s| && !SType(s, i) && !SType(s, i + 1)
    ensures CoreLess(s, rk, i + 1, i)
    decreases |s| - i
  {
    if s[i] == s[i + 1] {
      if SType(s, i + 2) {
      } else {
        SuccessorFirst(s, rk, i + 1);
      }
    }
  }

  // ----- InducedLess is a strict total order on all positions -----

  lemma {:induction false} InducedTotal(s: seq<nat>, rk: seq<int>, i: nat, j: nat)
    requires Terminated(s) && Ranking(s, rk) && i < |s| && j < |s| && i != j
    ensures InducedLess(s, rk, i, j) != InducedLess(s, rk, j, i)
    decreases |s| - i
  {
    if s[i] == s[j] && SType(s, i) == SType(s, j) {
      if SType(s, i) {
        InducedTotal(s, rk, i + 1, j + 1);
      } else {
        CoreTotal(s, rk, i + 1, j + 1);
      }
    }
  }

  lemma {:induction false} InducedTransitive(s: seq<nat>, rk: seq<int>, i: nat, j: nat, k: nat)
    requires Terminated(s) && Ranking(s, rk) && i < |s| && j < |s| && k < |s|
    requires InducedLess(s, rk, i, j) && InducedLess(s, rk, j, k)
    ensures InducedLess(s, rk, i, k)
    decreases |s| - i
  {
    if s[i] == s[j] == s[k] && SType(s, i) == SType(s, k) {
      if SType(s, i) {
        InducedTransitive(s, rk, i + 1, j + 1, k + 1);
      } else {
        CoreTransitive(s, rk, i + 1, j + 1, k + 1);
      }
    }
  }

  lemma {:induction false} InducedIrreflexive(s: seq<nat>, rk: seq<int>, i: nat)
    requires |rk| == |s| && i < |s|
    ensures !InducedLess(s, rk, i, i)
    decreases |s| - i
  {
    if i + 1 < |s| {
      CoreIrreflexive(s, rk, i + 1);
      InducedIrreflexive(s, rk, i + 1);
    }
  }

  lemma {:induction false} CoreIrreflexive(s: seq<nat>, rk: seq<int>, i: nat)
    requires |rk| == |s| && i < |s|
    ensures !CoreLess(s, rk, i, i)
    decreases |s| - i
  {
    if i + 1 < |s| { CoreIrreflexive(s, rk, i + 1); }
  }

  lemma {:induction false} STypeBeforeSuccessor(s: seq<nat>, rk: seq<int>, i: nat)
    requires Terminated(s) && Ranking(s, rk)
    requires i + 1 < |s| && SType(s, i)
    ensures InducedLess(s, rk, i, i + 1)
    decreases |s| - i
  {
    if s[i] == s[i + 1] { STypeBeforeSuccessor(s, rk, i + 1); }
  }

  // ----- the sorted list of all positions -----

  /** `f` lists all positions in induced order; `at` is its inverse. */
  ghost predicate Sorted(s: seq<nat>, rk: seq<int>, f: seq<nat>, at: seq<nat>) {
    && |rk| == |f| == |at| == |s|
    && (forall q :: 0 <= q < |s| ==> f[q] < |s| && at[f[q]] == q)
    && (forall p :: 0 <= p < |s| ==> at[p] < |s| && f[at[p]] == p)
    && (forall q, r :: 0 <= q < r < |s| ==> InducedLess(s, rk, f[q], f[r]))
  }

  lemma SortedExists(s: seq<nat>, rk: seq<int>) returns (f: seq<nat>, at: seq<nat>)
    requires Terminated(s) && Ranking(s, rk)
    ensures Sorted(s, rk, f, at)
  {
    var less := (i: nat, j: nat) => i < |s| && j < |s| && InducedLess(s, rk, i, j);
    forall i, j | 0 <= i < |s| && 0 <= j < |s| && i != j ensures less(i, j) || less(j, i) { InducedTotal(s, rk, i, j); }
    forall i, j, k | 0 <= i < |s| && 0 <= j < |s| && 0 <= k < |s| && less(i, j) && less(j, k) ensures less(i, k) {
      InducedTransitive(s, rk, i, j, k);
    }
    f := SortBelow(less, |s|);
    forall q, r | 0 <= q < r < |s| ensures InducedLess(s, rk, f[q], f[r]) { assert less(f[q], f[r]); }
    at := seq(|s|, p requires 0 <= p < |s| => IndexOf(f, p));
    forall q | 0 <= q < |s| ensures at[f[q]] == q {
      var r := at[f[q]];
      InducedIrreflexive(s, rk, f[q]);
    }
  }

  ghost function IndexOf(f: seq<nat>, p: nat): (q: nat)
    ensures p in f ==> q < |f| && f[q] == p
  {
    if p in f then var q :| 0 <= q < |f| && f[q] == p; q else 0
  }

  /** In the sorted list, bucket `k` occupies the slots from `Below(k)` to `Below(k + 1)`. */
  lemma BucketSlots(s: seq<nat>, rk: seq<int>, f: seq<nat>, at: seq<nat>, q: nat, k: nat)
    requires Sorted(s, rk, f, at) && q < |s|
    ensures Key(s, f[q]) < k <==> q < Below(s, k)
  {
    var m := 0;
    while m < |s| && Key(s, f[m]) < k
      invariant m <= |s|
      invariant forall r :: 0 <= r < m ==> Key(s, f[r]) < k
    {
      m := m + 1;
    }
    forall r | m <= r < |s| ensures Key(s, f[r]) >= k {
      if r > m { assert InducedLess(s, rk, f[m], f[r]); }
    }
    var g := f[..m];
    forall a, b | 0 <= a < b < m ensures g[a] != g[b] { assert at[f[a]] == a && at[f[b]] == b; }
    DistinctSize(g);
    forall x: nat | x in PositionsBelow(s, k) ensures x in g {
      assert f[at[x]] == x;
      assert g[at[x]] == x;
    }
    assert Elements(g) == PositionsBelow(s, k);
    BelowSize(s, k);
  }

  /** With ranks that follow the suffix order, the induced order is the suffix order. */
  lemma {:induction false} CoreIsSuffixOrder(s: seq<nat>, rk: seq<int>, i: nat, j: nat)
    requires Terminated(s) && |rk| == |s| && i < |s| && j < |s| && Core(s, i) && Core(s, j)
    requires forall p, q :: 0 <= p < |s| && 0 <= q < |s| && Lms(s, p) && Lms(s, q) && rk[p] < rk[q] ==> Less(s, p, q)
    requires CoreLess(s, rk, i, j)
    ensures Less(s, i, j)
    decreases |s| - i
  {
    if Lms(s, i) && Lms(s, j) {
    } else if s[i] == s[j] {
      if SType(s, i) != SType(s, j) {
        LBeforeS(s, i, j);
      } else {
        CoreIsSuffixOrder(s, rk, i + 1, j + 1);
      }
    }
  }

  lemma {:induction false} InducedIsSuffixOrder(s: seq<nat>, rk: seq<int>, i: nat, j: nat)
    requires Terminated(s) && |rk| == |s| && i < |s| && j < |s|
    requires forall p, q :: 0 <= p < |s| && 0 <= q < |s| && Lms(s, p) && Lms(s, q) && rk[p] < rk[q] ==> Less(s, p, q)
    requires InducedLess(s, rk, i, j)
    ensures Less(s, i, j)
    decreases |s| - i
  {
    if s[i] == s[j] {
      if SType(s, i) != SType(s, j) {
        LBeforeS(s, i, j);
      } else if SType(s, i) {
        InducedIsSuffixOrder(s, rk, i + 1, j + 1);
      } else {
        CoreIsSuffixOrder(s, rk, i + 1, j + 1);
      }
    }
  }

  // ----- LMS substrings -----

  /** Stepping together from `i` and `j`, symbols and types agree until both reach an LMS position. */
  predicate TailEq(s: seq<nat>, i: nat, j: nat)
    requires i < |s| && j < |s|
    decreases |s| - i
  {
    if Lms(s, i) && Lms(s, j) then true
    else
      && Lms(s, i) == Lms(s, j)
      && s[i] == s[j] && SType(s, i) == SType(s, j)
      && i + 1 < |s| && j + 1 < |s| && TailEq(s, i + 1, j + 1)
  }

  /** The LMS substrings from `p` and from `q` agree as far as the symbols before their last. */
  predicate SubstringEq(s: seq<nat>, p: nat, q: nat)
    requires p < |s| && q < |s|
  {
    p == q || (s[p] == s[q] && SType(s, p) == SType(s, q) && p + 1 < |s| && q + 1 < |s| && TailEq(s, p + 1, q + 1))
  }

  /** As `TailEq`, and the closing LMS symbols agree too. */
  ghost predicate TailSame(s: seq<nat>, i: nat, j: nat)
    requires i < |s| && j < |s|
    decreases |s| - i
  {
    if Lms(s, i) && Lms(s, j) then s[i] == s[j]
    else
      && Lms(s, i) == Lms(s, j)
      && s[i] == s[j] && SType(s, i) == SType(s, j)
      && i + 1 < |s| && j + 1 < |s| && TailSame(s, i + 1, j + 1)
  }

  /** The LMS substrings from `p` and from `q` are equal, their last symbols included. */
  ghost predicate SubstringSame(s: seq<nat>, p: nat, q: nat)
    requires p < |s| && q < |s|
  {
    p == q || (s[p] == s[q] && SType(s, p) == SType(s, q) && p + 1 < |s| && q + 1 < |s| && TailSame(s, p + 1, q + 1))
  }

  lemma {:induction false} TailSymmetric(s: seq<nat>, i: nat, j: nat)
    requires i < |s| && j < |s| && TailEq(s, i, j)
    ensures TailEq(s, j, i)
    decreases |s| - i
  {
    if !(Lms(s, i) && Lms(s, j)) { TailSymmetric(s, i + 1, j + 1); }
  }

  lemma {:induction false} TailTransitive(s: seq<nat>, i: nat, j: nat, k: nat)
    requires i < |s| && j < |s| && k < |s| && TailEq(s, i, j) && TailEq(s, j, k)
    ensures TailEq(s, i, k)
    decreases |s| - i
  {
    if !Lms(s, i) { TailTransitive(s, i + 1, j + 1, k + 1); }
  }

  lemma SubstringEquivalence(s: seq<nat>, p: nat, q: nat, r: nat)
    requires p < |s| && q < |s| && r < |s|
    ensures SubstringEq(s, p, q) ==> SubstringEq(s, q, p)
    ensures SubstringEq(s, p, q) && SubstringEq(s, q, r) ==> SubstringEq(s, p, r)
  {
    if SubstringEq(s, p, q) && p != q {
      TailSymmetric(s, p + 1, q + 1);
      if SubstringEq(s, q, r) && q != r { TailTransitive(s, p + 1, q + 1, r + 1); }
    }
  }

  /** The first LMS position from `i` on, or the end of the string when there is none. */
  function LmsFrom(s: seq<nat>, i: nat): (c: nat)
    requires i <= |s|
    ensures i <= c <= |s| && (c < |s| ==> Lms(s, c)) && forall e :: i <= e < c ==> !Lms(s, e)
    decreases |s| - i
  {
    if i == |s| || Lms(s, i) then i else LmsFrom(s, i + 1)
  }

  /** The symbols that close the LMS substrings starting before `i` and `j` agree. */
  predicate SameClosing(s: seq<nat>, i: nat, j: nat)
    requires i <= |s| && j <= |s|
  {
    LmsFrom(s, i) < |s| && LmsFrom(s, j) < |s| && s[LmsFrom(s, i)] == s[LmsFrom(s, j)]
  }

  lemma {:induction false} TailSameExactly(s: seq<nat>, i: nat, j: nat)
    requires i < |s| && j < |s|
    ensures TailSame(s, i, j) <==> TailEq(s, i, j) && SameClosing(s, i, j)
    decreases |s| - i
  {
    if !Lms(s, i) && !Lms(s, j) && i + 1 < |s| && j + 1 < |s| { TailSameExactly(s, i + 1, j + 1); }
  }

  /** What leaving the closing symbols out of the comparison loses: those symbols, and nothing else. */
  lemma SubstringSameExactly(s: seq<nat>, p: nat, q: nat)
    requires p < |s| && q < |s|
    ensures SubstringSame(s, p, q) <==> SubstringEq(s, p, q) && (p == q || SameClosing(s, p + 1, q + 1))
  {
    if p + 1 < |s| && q + 1 < |s| { TailSameExactly(s, p + 1, q + 1); }
  }

  /** Different LMS substrings already decide the suffix order, whatever the ranks. */
  lemma {:induction false} CoreDecides(s: seq<nat>, rk: seq<int>, i: nat, j: nat)
    requires Terminated(s) && Ranking(s, rk) && i < |s| && j < |s| && Core(s, i) && Core(s, j)
    requires CoreLess(s, rk, i, j) && !TailSame(s, i, j)
    ensures Less(s, i, j)
    decreases |s| - i
  {
    if !(Lms(s, i) && Lms(s, j)) && s[i] == s[j] {
      if SType(s, i) != SType(s, j) { LBeforeS(s, i, j); } else { CoreDecides(s, rk, i + 1, j + 1); }
    }
  }

  lemma {:induction false} RunDecides(s: seq<nat>, rk: seq<int>, i: nat, j: nat)
    requires Terminated(s) && Ranking(s, rk) && i < |s| && j < |s| && !Lms(s, i) && !Lms(s, j)
    requires InducedLess(s, rk, i, j) && !TailSame(s, i, j)
    ensures Less(s, i, j)
    decreases |s| - i
  {
    if s[i] == s[j] {
      if SType(s, i) != SType(s, j) {
        LBeforeS(s, i, j);
      } else if SType(s, i) {
        RunDecides(s, rk, i + 1, j + 1);
      } else {
        CoreDecides(s, rk, i + 1, j + 1);
      }
    }
  }

  lemma SubstringDecides(s: seq<nat>, rk: seq<int>, p: nat, q: nat)
    requires Terminated(s) && Ranking(s, rk) && p < |s| && q < |s| && Lms(s, p) && Lms(s, q)
    requires InducedLess(s, rk, p, q) && !SubstringSame(s, p, q)
    ensures Less(s, p, q)
  {
    if s[p] == s[q] { RunDecides(s, rk, p + 1, q + 1); }
  }

  /** Equal LMS substrings are on the same side of any third one. */
  lemma {:induction false} CoreSameSide(s: seq<nat>, rk: seq<int>, i: nat, k: nat, j: nat)
    requires Terminated(s) && Ranking(s, rk) && i < |s| && j < |s| && k < |s|
    requires Core(s, i) && Core(s, j) && Core(s, k)
    requires TailSame(s, i, k) && !TailSame(s, i, j) && CoreLess(s, rk, i, j)
    ensures CoreLess(s, rk, k, j)
    decreases |s| - i
  {
    if !Lms(s, i) && s[i] == s[j] && SType(s, i) == SType(s, j) {
      CoreSameSide(s, rk, i + 1, k + 1, j + 1);
    }
  }

  lemma {:induction false} RunSameSide(s: seq<nat>, rk: seq<int>, i: nat, k: nat, j: nat)
    requires Terminated(s) && Ranking(s, rk) && i < |s| && j < |s| && k < |s|
    requires !Lms(s, i) && !Lms(s, j) && !Lms(s, k)
    requires TailSame(s, i, k) && !TailSame(s, i, j) && InducedLess(s, rk, i, j)
    ensures InducedLess(s, rk, k, j)
    decreases |s| - i
  {
    if s[i] == s[j] && SType(s, i) == SType(s, j) {
      if SType(s, i) {
        RunSameSide(s, rk, i + 1, k + 1, j + 1);
      } else {
        CoreSameSide(s, rk, i + 1, k + 1, j + 1);
      }
    }
  }

  /** So equal LMS substrings stand together in the induced order. */
  lemma SubstringsContiguous(s: seq<nat>, rk: seq<int>, a: nat, b: nat, c: nat)
    requires Terminated(s) && Ranking(s, rk) && a < |s| && b < |s| && c < |s|
    requires Lms(s, a) && Lms(s, b) && Lms(s, c)
    requires InducedLess(s, rk, a, b) && InducedLess(s, rk, b, c) && SubstringSame(s, a, c)
    ensures SubstringSame(s, a, b)
  {
    if !SubstringSame(s, a, b) {
      InducedIrreflexive(s, rk, b);
      InducedTransitive(s, rk, a, b, c);
      if a == c {
        InducedTransitive(s, rk, b, c, b);
      } else {
        if s[a] == s[b] { RunSameSide(s, rk, a + 1, c + 1, b + 1); }
        assert InducedLess(s, rk, c, b);
        InducedTransitive(s, rk, b, c, b);
      }
    }
  }

  // ----- the reduced string -----

  /** `pos` lists the LMS positions of `s` in ascending order. */
  ghost predicate LmsPositions(s: seq<nat>, pos: seq<nat>) {
    && (forall a :: 0 <= a < |pos| ==> pos[a] < |s| && Lms(s, pos[a]))
    && (forall p :: 0 <= p < |s| && Lms(s, p) ==> p in pos)
    && (forall a, b :: 0 <= a < b < |pos| ==> pos[a] < pos[b])
  }

  /** Equal names mean equal substrings, smaller names mean smaller suffixes. */
  ghost predicate Names(s: seq<nat>, pos: seq<nat>, r: seq<nat>) {
    && |r| == |pos|
    && (forall a :: 0 <= a < |pos| ==> pos[a] < |s|)
    && (forall a, b :: 0 <= a < |pos| && 0 <= b < |pos| && r[a] == r[b] ==> SubstringEq(s, pos[a], pos[b]))
    && (forall a, b :: 0 <= a < |pos| && 0 <= b < |pos| && r[a] < r[b] ==> Less(s, pos[a], pos[b]))
  }

  /** From equal substrings, the next LMS positions are equally far and decide the order. */
  lemma {:induction false} NextLms(s: seq<nat>, i: nat, j: nat) returns (d: nat)
    requires i < |s| && j < |s| && TailEq(s, i, j)
    ensures i + d < |s| && j + d < |s| && Lms(s, i + d) && Lms(s, j + d)
    ensures forall e :: i <= e < i + d ==> !Lms(s, e)
    ensures forall e :: j <= e < j + d ==> !Lms(s, e)
    ensures Less(s, i + d, j + d) ==> Less(s, i, j)
    decreases |s| - i
  {
    if Lms(s, i) && Lms(s, j) {
      d := 0;
    } else {
      d := NextLms(s, i + 1, j + 1);
      d := d + 1;
    }
  }

  lemma LmsSuccessor(s: seq<nat>, pos: seq<nat>, a: nat, d: nat)
    requires LmsPositions(s, pos) && a < |pos|
    requires pos[a] + 1 + d < |s| && Lms(s, pos[a] + 1 + d)
    requires forall e :: pos[a] + 1 <= e < pos[a] + 1 + d ==> !Lms(s, e)
    ensures a + 1 < |pos| && pos[a + 1] == pos[a] + 1 + d
  {
    var b :| 0 <= b < |pos| && pos[b] == pos[a] + 1 + d;
    assert b > a;
    assert pos[a] < pos[a + 1] <= pos[b];
  }

  /** The reduced string has the suffix order of the LMS suffixes. */
  lemma {:induction false} ReducedOrder(s: seq<nat>, pos: seq<nat>, r: seq<nat>, a: nat, b: nat)
    requires Terminated(s) && LmsPositions(s, pos) && Names(s, pos, r)
    requires a < |pos| && b < |pos| && Less(r, a, b)
    ensures Less(s, pos[a], pos[b])
    decreases |r| - a
  {
    if r[a] == r[b] {
      var p, q := pos[a], pos[b];
      LessIrreflexive(r, a);
      if p != q {
        var d := NextLms(s, p + 1, q + 1);
        LmsSuccessor(s, pos, a, d);
        LmsSuccessor(s, pos, b, d);
        ReducedOrder(s, pos, r, a + 1, b + 1);
      }
    }
  }
}
