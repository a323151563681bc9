/** Suffixes of a text, their order, and their S/L classification.

    A text is *terminated* when its last symbol is 0 and no other symbol is. A position is
    S-type when its suffix is smaller than the next one's, L-type otherwise; an S-type
    position whose predecessor is L-type is an LMS position.
 */
module SuffixOrder {
  import opened Sequences

  predicate Terminated(s: seq<nat>) {
    |s| > 0 && s[|s| - 1] == 0 && forall i :: 0 <= i < |s| - 1 ==> s[i] > 0
  }

  /** The suffix at `i` is lexicographically smaller than the suffix at `j`. */
  predicate Less(s: seq<nat>, i: nat, j: nat)
    requires i <= |s| && j <= |s|
    decreases |s| - i
  {
    j < |s| && (i == |s| || s[i] < s[j] || (s[i] == s[j] && Less(s, i + 1, j + 1)))
  }

  /** `sa` lists every position of `s` once, in ascending order of suffixes. */
  ghost predicate IsSuffixArray(s: seq<nat>, sa: seq<nat>) {
    && |sa| == |s|
    && (forall q :: 0 <= q < |sa| ==> sa[q] < |s|)
    && (forall p :: 0 <= p < |s| ==> p in sa)
    && (forall q, r :: 0 <= q < r < |sa| ==> Less(s, sa[q], sa[r]))
  }

  // ----- the suffix order is a strict total order -----

  lemma {:induction false} LessIrreflexive(s: seq<nat>, i: nat)
    requires i <= |s|
    ensures !Less(s, i, i)
    decreases |s| - i
  {
    if i < |s| { LessIrreflexive(s, i + 1); }
  }

  lemma {:induction false} LessTransitive(s: seq<nat>, i: nat, j: nat, k: nat)
    requires i <= |s| && j <= |s| && k <= |s|
    requires Less(s, i, j) && Less(s, j, k)
    ensures Less(s, i, k)
    decreases |s| - i
  {
    if i < |s| && s[i] == s[j] == s[k] { LessTransitive(s, i + 1, j + 1, k + 1); }
  }

  lemma {:induction false} LessTotal(s: seq<nat>, i: nat, j: nat)
    requires i <= |s| && j <= |s| && i != j
    ensures Less(s, i, j) || Less(s, j, i)
    decreases |s| - i
  {
    if i < |s| && j < |s| && s[i] == s[j] { LessTotal(s, i + 1, j + 1); }
  }

  lemma LessAsymmetric(s: seq<nat>, i: nat, j: nat)
    requires i <= |s| && j <= |s| && Less(s, i, j)
    ensures !Less(s, j, i)
  {
    if Less(s, j, i) {
      LessTransitive(s, i, j, i);
      LessIrreflexive(s, i);
    }
  }

  /** There is one suffix array at most. */
  lemma {:induction false} SuffixArrayUnique(s: seq<nat>, a: seq<nat>, b: seq<nat>)
    requires IsSuffixArray(s, a) && IsSuffixArray(s, b)
    ensures a == b
  {
    forall q | 0 <= q < |a| ensures a[q] == b[q] { SuffixArrayUniqueAt(s, a, b, q); }
  }

  lemma {:induction false} SuffixArrayUniqueAt(s: seq<nat>, a: seq<nat>, b: seq<nat>, q: nat)
    requires IsSuffixArray(s, a) && IsSuffixArray(s, b) && q < |a|
    ensures a[q] == b[q]
  {
    forall r | 0 <= r < q ensures a[r] == b[r] { SuffixArrayUniqueAt(s, a, b, r); }
    if a[q] != b[q] {
      // whichever of the two is smaller has no place left in the other list
      LessTotal(s, a[q], b[q]);
      if Less(s, a[q], b[q]) {
        assert a[q] in b;
        var r :| 0 <= r < |b| && b[r] == a[q];
        NoLaterSmaller(s, b, q, r, a[q]);
        assert a[r] == b[r];
        LessIrreflexive(s, a[q]);
      } else {
        assert b[q] in a;
        var r :| 0 <= r < |a| && a[r] == b[q];
        NoLaterSmaller(s, a, q, r, b[q]);
        assert a[r] == b[r];
        LessIrreflexive(s, b[q]);
      }
    }
  }

  lemma NoLaterSmaller(s: seq<nat>, a: seq<nat>, q: nat, r: nat, x: nat)
    requires IsSuffixArray(s, a) && q < |a| && r < |a| && a[r] == x && Less(s, x, a[q])
    ensures r < q
  {
    LessIrreflexive(s, x);
    if r > q { LessAsymmetric(s, x, a[q]); }
  }

  lemma SuffixArrayExists(s: seq<nat>)
    ensures exists sa :: IsSuffixArray(s, sa)
  {
    var less := (i: nat, j: nat) => i < |s| && j < |s| && Less(s, i, j);
    forall i, j | 0 <= i < |s| && 0 <= j < |s| && i != j ensures less(i, j) || less(j, i) { LessTotal(s, i, j); }
    forall i, j, k | 0 <= i < |s| && 0 <= j < |s| && 0 <= k < |s| && less(i, j) && less(j, k) ensures less(i, k) {
      LessTransitive(s, i, j, k);
    }
    var a := SortBelow(less, |s|);
    forall q, r | 0 <= q < r < |a| ensures Less(s, a[q], a[r]) { assert less(a[q], a[r]); }
    assert IsSuffixArray(s, a);
  }

  /** The suffix array of `s`. */
  ghost function SuffixArray(s: seq<nat>): (sa: seq<nat>)
    ensures IsSuffixArray(s, sa)
  {
    SuffixArrayExists(s);
    var sa :| IsSuffixArray(s, sa);
    sa
  }

  // ----- types -----

  predicate SType(s: seq<nat>, i: nat)
    requires i < |s|
    decreases |s| - i
  {
    i == |s| - 1 || s[i] < s[i + 1] || (s[i] == s[i + 1] && SType(s, i + 1))
  }

  predicate Lms(s: seq<nat>, i: nat)
    requires i < |s|
  {
    i > 0 && SType(s, i) && !SType(s, i - 1)
  }

  /** An L-type position or an LMS position: what the left-to-right pass handles. */
  predicate Core(s: seq<nat>, i: nat)
    requires i < |s|
  {
    !SType(s, i) || Lms(s, i)
  }

  function Types(s: seq<nat>): (t: seq<bool>)
    ensures |t| == |s| && forall i :: 0 <= i < |s| ==> t[i] == SType(s, i)
  {
    seq(|s|, i requires 0 <= i < |s| => SType(s, i))
  }

  /** The comment on `classify`: S-type means smaller than the next suffix. */
  lemma {:induction false} STypeMeansSmaller(s: seq<nat>, i: nat)
    requires i + 1 < |s| && Terminated(s)
    ensures SType(s, i) <==> Less(s, i, i + 1)
    decreases |s| - i
  {
    if s[i] == s[i + 1] { STypeMeansSmaller(s, i + 1); }
  }

  /** Among suffixes that start alike, the L-type ones come first. */
  lemma {:induction false} LBeforeS(s: seq<nat>, i: nat, j: nat)
    requires Terminated(s) && i < |s| && j < |s|
    requires s[i] == s[j] && !SType(s, i) && SType(s, j)
    ensures Less(s, i, j)
    decreases |s| - i
  {
    if s[i + 1] == s[j + 1] { LBeforeS(s, i + 1, j + 1); }
  }

  /** The bucket of a position: its symbol, and within a symbol L-type before S-type. */
  function Key(s: seq<nat>, i: nat): (k: nat)
    requires i < |s|
  {
    2 * s[i] + if SType(s, i) then 1 else 0
  }

  lemma KeyParts(s: seq<nat>, i: nat, c: nat)
    requires i < |s|
    ensures Key(s, i) < 2 * c <==> s[i] < c
    ensures Key(s, i) == 2 * c <==> s[i] == c && !SType(s, i)
    ensures Key(s, i) == 2 * c + 1 <==> s[i] == c && SType(s, i)
    ensures Key(s, i) / 2 == s[i]
  {
  }

  ghost function PositionsBelow(s: seq<nat>, k: nat): (r: set<nat>)
    ensures forall i: nat :: i in r <==> i < |s| && Key(s, i) < k
  {
    set i: nat | 0 <= i < |s| && Key(s, i) < k
  }

  /** How many positions have a key below `k`: where bucket `k` starts. */
  ghost function Below(s: seq<nat>, k: nat): (n: nat) {
    BelowFrom(s, k, 0)
  }

  ghost function BelowFrom(s: seq<nat>, k: nat, i: nat): (n: nat)
    requires i <= |s|
    ensures n <= |s| - i
    decreases |s| - i
  {
    if i == |s| then 0 else BelowFrom(s, k, i + 1) + if Key(s, i) < k then 1 else 0
  }

  ghost function PositionsFrom(s: seq<nat>, k: nat, i: nat): set<nat> {
    set p | p in PositionsBelow(s, k) && i <= p
  }

  lemma {:induction false} BelowFromSize(s: seq<nat>, k: nat, i: nat)
    requires i <= |s|
    ensures BelowFrom(s, k, i) == |PositionsFrom(s, k, i)|
    decreases |s| - i
  {
    if i == |s| {
      assert PositionsFrom(s, k, i) == {};
    } else {
      BelowFromSize(s, k, i + 1);
      if Key(s, i) < k {
        assert PositionsFrom(s, k, i) == PositionsFrom(s, k, i + 1) + {i};
      } else {
        assert PositionsFrom(s, k, i) == PositionsFrom(s, k, i + 1);
      }
    }
  }

  lemma BelowSize(s: seq<nat>, k: nat)
    ensures Below(s, k) == |PositionsBelow(s, k)|
  {
    BelowFromSize(s, k, 0);
    assert PositionsFrom(s, k, 0) == PositionsBelow(s, k);
  }

  lemma {:induction false} BelowFromMono(s: seq<nat>, a: nat, b: nat, i: nat)
    requires a <= b && i <= |s|
    ensures BelowFrom(s, a, i) <= BelowFrom(s, b, i)
    decreases |s| - i
  {
    if i < |s| { BelowFromMono(s, a, b, i + 1); }
  }

  lemma BelowMono(s: seq<nat>, a: nat, b: nat)
    requires a <= b
    ensures Below(s, a) <= Below(s, b) <= |s|
  {
    BelowFromMono(s, a, b, 0);
  }

  lemma SubsetSize<T>(a: set<T>, b: set<T>)
    requires a <= b
    ensures |a| <= |b|
    ensures a != b ==> |a| < |b|
  {
    assert b == a + (b - a);
    if a != b { assert b - a != {}; }
  }

  ghost function Elements<T>(xs: seq<T>): set<T> {
    set x | x in xs
  }

  lemma {:induction false} DistinctSize<T>(xs: seq<T>)
    requires forall i, j :: 0 <= i < j < |xs| ==> xs[i] != xs[j]
    ensures |Elements(xs)| == |xs|
  {
    if xs != [] {
      var ys := xs[..|xs| - 1];
      DistinctSize(ys);
      assert Elements(xs) == Elements(ys) + {xs[|xs| - 1]};
    }
  }
}
