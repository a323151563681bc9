/** SA-IS: the suffix array of a terminated text.

    Sort the LMS substrings by induced sorting, name them, recurse on the string of names
    unless all names differ, then sort everything from the true order of the LMS suffixes.
 */
module SuffixArrays {
  import opened SuffixOrder
  import opened InducedOrder
  import opened InducedSort

  method Classify(s: seq<nat>) returns (types: seq<bool>)
    requires |s| > 0
    ensures types == Types(s)
  {
    var n := |s|;
    var t := new bool[n];
    t[n - 1] := true;
    for i := n - 1 downto 0
      invariant forall j :: i <= j < n ==> t[j] == SType(s, j)
    {
      t[i] := if s[i] < s[i + 1] then true else if s[i] > s[i + 1] then false else t[i + 1];
    }
    types := t[..];
  }

  predicate IsLms(types: seq<bool>, i: nat)
    requires i < |types|
  {
    i > 0 && types[i] && !types[i - 1]
  }

  lemma LastIsLms(s: seq<nat>)
    requires Terminated(s) && |s| >= 2
    ensures Lms(s, |s| - 1)
  {
  }

  lemma {:induction false} TailReflexive(s: seq<nat>, i: nat)
    requires Terminated(s) && |s| >= 2 && i < |s|
    ensures TailEq(s, i, i)
    decreases |s| - i
  {
    LastIsLms(s);
    if !Lms(s, i) { TailReflexive(s, i + 1); }
  }

  /** Do the LMS substrings at `p` and `q` agree? Their closing LMS symbols are not compared. */
  method LmsSubstrEq(s: seq<nat>, types: seq<bool>, p: nat, q: nat) returns (eq: bool)
    requires Terminated(s) && |s| >= 2 && types == Types(s) && p < |s| && q < |s|
    ensures eq == SubstringEq(s, p, q)
  {
    var n := |s|;
    if p == n - 1 || q == n - 1 {
      return p == q;
    }
    if p == q { TailReflexive(s, p + 1); }
    var d := 0;
    while true
      invariant d > 0 ==> p + d <= n && q + d <= n
      invariant d > 0 && p + d < n && q + d < n ==> SubstringEq(s, p, q) == TailEq(s, p + d, q + d)
      invariant d > 0 && (p + d == n || q + d == n) ==> !SubstringEq(s, p, q)
      decreases n - d
    {
      if p + d >= n || q + d >= n {
        return false;
      }
      var pLms := d > 0 && IsLms(types, p + d);
      var qLms := d > 0 && IsLms(types, q + d);
      if pLms && qLms {
        return true;
      }
      if pLms != qLms {
        return false;
      }
      if s[p + d] != s[q + d] || types[p + d] != types[q + d] {
        return false;
      }
      d := d + 1;
    }
  }

  method CollectLms(s: seq<nat>, types: seq<bool>) returns (pos: seq<nat>)
    requires |s| > 0 && types == Types(s)
    ensures LmsPositions(s, pos)
  {
    pos := [];
    for i := 1 to |s|
      invariant forall a :: 0 <= a < |pos| ==> pos[a] < i && Lms(s, pos[a])
      invariant forall p :: 0 <= p < i && Lms(s, p) ==> p in pos
      invariant forall a, b :: 0 <= a < b < |pos| ==> pos[a] < pos[b]
    {
      if IsLms(types, i) { pos := pos + [i]; }
    }
  }

  /** The LMS positions in induced order. */
  ghost predicate LmsSorted(s: seq<nat>, rk: seq<int>, sorted: seq<nat>) {
    && |rk| == |s|
    && (forall b :: 0 <= b < |sorted| ==> sorted[b] < |s| && Lms(s, sorted[b]))
    && (forall b, d :: 0 <= b < d < |sorted| ==> InducedLess(s, rk, sorted[b], sorted[d]))
  }

  /** The LMS positions in the order in which `sa` has them. */
  method FilterLms(s: seq<nat>, types: seq<bool>, sa: seq<nat>, ghost rk: seq<int>, ghost at: seq<nat>)
    returns (sorted: seq<nat>)
    requires 0 < |s| <= EMPTY && types == Types(s) && Sorted(s, rk, sa, at)
    ensures Listing(s, sorted) && LmsSorted(s, rk, sorted)
  {
    hide InducedLess, SType, Below;
    sorted := [];
    for i := 0 to |s|
      invariant forall b :: 0 <= b < |sorted| ==> sorted[b] < |s| && Lms(s, sorted[b]) && at[sorted[b]] < i
      invariant forall b, d :: 0 <= b < d < |sorted| ==> at[sorted[b]] < at[sorted[d]]
      invariant forall q :: 0 <= q < i && Lms(s, sa[q]) ==> sa[q] in sorted
    {
      var p := sa[i];
      if p != EMPTY && p > 0 && IsLms(types, p) { sorted := sorted + [p]; }
    }
    FilteredSorts(s, sa, rk, at, sorted);
  }

  lemma FilteredSorts(s: seq<nat>, sa: seq<nat>, rk: seq<int>, at: seq<nat>, sorted: seq<nat>)
    requires Sorted(s, rk, sa, at)
    requires forall b :: 0 <= b < |sorted| ==> sorted[b] < |s| && Lms(s, sorted[b])
    requires forall b, d :: 0 <= b < d < |sorted| ==> at[sorted[b]] < at[sorted[d]]
    requires forall q :: 0 <= q < |s| && Lms(s, sa[q]) ==> sa[q] in sorted
    ensures Listing(s, sorted) && LmsSorted(s, rk, sorted)
  {
    hide InducedLess, Lms;
    forall p | 0 <= p < |s| && Lms(s, p) ensures p in sorted { assert sa[at[p]] == p; }
    forall b, d | 0 <= b < d < |sorted| ensures InducedLess(s, rk, sorted[b], sorted[d]) {
      assert sa[at[sorted[b]]] == sorted[b] && sa[at[sorted[d]]] == sorted[d];
    }
  }

  // ----- naming -----

  ghost predicate NamedPair(s: seq<nat>, sorted: seq<nat>, nm: seq<nat>, b: nat, d: nat)
    requires b < |nm| && d < |nm| && |nm| <= |sorted| && sorted[b] < |s| && sorted[d] < |s|
  {
    && nm[b] <= nm[d]
    && (nm[b] == nm[d] ==> SubstringEq(s, sorted[b], sorted[d]))
    && (nm[b] != nm[d] ==> !SubstringSame(s, sorted[b], sorted[d]))
  }

  /** The names `nm` of the first LMS positions of `sorted`. */
  ghost predicate Named(s: seq<nat>, sorted: seq<nat>, nm: seq<nat>)
    requires forall b :: 0 <= b < |sorted| ==> sorted[b] < |s|
  {
    |nm| <= |sorted| && forall b, d :: 0 <= b < d < |nm| ==> NamedPair(s, sorted, nm, b, d)
  }

  /** One more name, against one earlier position; `first` is the first position with the last name. */
  lemma NamedAgainst(s: seq<nat>, rk: seq<int>, sorted: seq<nat>, nm: seq<nat>, first: nat, x: nat, i: nat, b: nat)
    requires Terminated(s) && Ranking(s, rk) && LmsSorted(s, rk, sorted) && Named(s, sorted, nm)
    requires b < i == |nm| < |sorted| && first < i && nm[first] == nm[i - 1]
    requires x == nm[i - 1] + if SubstringEq(s, sorted[i], sorted[first]) then 0 else 1
    ensures NamedPair(s, sorted, nm + [x], b, i)
  {
    var p, q, f := sorted[b], sorted[i], sorted[first];
    if b < i - 1 { assert NamedPair(s, sorted, nm, b, i - 1); }
    if b < first { assert NamedPair(s, sorted, nm, b, first); }
    if first < b { assert NamedPair(s, sorted, nm, first, b); }
    assert nm[b] == nm[first] ==> SubstringEq(s, p, f) by {
      SubstringEquivalence(s, f, p, p);
    }
    SubstringEquivalence(s, q, f, f);
    SubstringEquivalence(s, p, f, q);
    if SubstringSame(s, p, q) {
      // everything between two equal substrings is equal to them, so `b` has the last name given
      if b < i - 1 { SubstringsContiguous(s, rk, p, sorted[i - 1], q); }
      assert nm[b] == nm[i - 1];
      SubstringSameExactly(s, p, q);
      SubstringEquivalence(s, p, q, q);
      SubstringEquivalence(s, q, p, f);
    }
  }

  lemma NamedStep(s: seq<nat>, rk: seq<int>, sorted: seq<nat>, nm: seq<nat>, first: nat, x: nat)
    requires Terminated(s) && Ranking(s, rk) && LmsSorted(s, rk, sorted) && Named(s, sorted, nm)
    requires |nm| < |sorted|
    requires |nm| > 0 ==> first < |nm| && nm[first] == nm[|nm| - 1]
    requires |nm| > 0 ==> x == nm[|nm| - 1] + if SubstringEq(s, sorted[|nm|], sorted[first]) then 0 else 1
    ensures Named(s, sorted, nm + [x])
  {
    var i := |nm|;
    forall b, d | 0 <= b < d < |nm + [x]| ensures NamedPair(s, sorted, nm + [x], b, d) {
      if d < i {
        assert NamedPair(s, sorted, nm, b, d);
      } else {
        NamedAgainst(s, rk, sorted, nm, first, x, i, b);
      }
    }
  }

  lemma HalvesDiffer(s: seq<nat>, p: nat, q: nat)
    requires p < |s| && q < |s| && Lms(s, p) && Lms(s, q) && p != q
    ensures p / 2 != q / 2
  {
  }

  /** Name `b` is stored, is at most `b`, and falls behind `b` only by repetition. */
  ghost predicate NameStored(names: seq<nat>, sorted: seq<nat>, nm: seq<nat>, name: nat, b: nat)
    requires b < |nm| <= |sorted|
  {
    && sorted[b] / 2 < |names| && names[sorted[b] / 2] == nm[b]
    && nm[b] < name && nm[b] <= b && name + b <= nm[b] + |nm|
  }

  lemma NameStoredStep(s: seq<nat>, rk: seq<int>, sorted: seq<nat>, names: seq<nat>, nm: seq<nat>, name: nat,
                       names': seq<nat>, nm': seq<nat>, name': nat)
    requires Terminated(s) && Ranking(s, rk) && LmsSorted(s, rk, sorted)
    requires |nm| < |sorted| && |names| == |s| / 2 + 1
    requires forall b :: 0 <= b < |nm| ==> NameStored(names, sorted, nm, name, b)
    requires name' == name + 1 || (name' == name && |nm| > 0 && nm[|nm| - 1] == name - 1)
    requires |nm| == 0 ==> name == 0
    requires |nm| > 0 ==> nm[|nm| - 1] == name - 1
    requires nm' == nm + [name' - 1] && names' == names[sorted[|nm|] / 2 := name' - 1]
    ensures forall b :: 0 <= b < |nm'| ==> NameStored(names', sorted, nm', name', b)
  {
    var i := |nm|;
    forall b | 0 <= b < |nm'| ensures NameStored(names', sorted, nm', name', b) {
      if b < i {
        assert NameStored(names, sorted, nm, name, b);
        InducedIrreflexive(s, rk, sorted[b]);
        HalvesDiffer(s, sorted[b], sorted[i]);
      } else if i > 0 {
        assert NameStored(names, sorted, nm, name, i - 1);
      }
    }
  }

  lemma NothingNamed(s: seq<nat>, sorted: seq<nat>)
    requires forall b :: 0 <= b < |sorted| ==> sorted[b] < |s|
    ensures Named(s, sorted, [])
  {
  }

  method NameSubstrings(s: seq<nat>, types: seq<bool>, sorted: seq<nat>, ghost rk: seq<int>)
    returns (names: seq<nat>, name: nat, ghost nm: seq<nat>)
    requires Terminated(s) && |s| >= 2 && types == Types(s) && Ranking(s, rk)
    requires LmsSorted(s, rk, sorted)
    ensures |nm| == |sorted| && Named(s, sorted, nm)
    ensures forall b :: 0 <= b < |nm| ==> NameStored(names, sorted, nm, name, b)
  {
    hide Named, NameStored, Ranking, SType, InducedLess, SubstringEq;
    NothingNamed(s, sorted);
    names := seq(|s| / 2 + 1, _ => EMPTY);
    name := 0;
    nm := [];
    var prev := 0;
    ghost var first := 0;
    for i := 0 to |sorted|
      invariant |nm| == i && |names| == |s| / 2 + 1 && Named(s, sorted, nm)
      invariant forall b :: 0 <= b < i ==> NameStored(names, sorted, nm, name, b)
      invariant i == 0 ==> name == 0
      invariant i > 0 ==> first < i && prev == sorted[first] && nm[first] == nm[i - 1] == name - 1
    {
      var p := sorted[i];
      var isNew := i == 0;
      if !isNew {
        var eq := LmsSubstrEq(s, types, p, prev);
        isNew := !eq;
      }
      NamedStep(s, rk, sorted, nm, first, if isNew then name else name - 1);
      ghost var names0, name0, nm0 := names, name, nm;
      if isNew {
        name := name + 1;
        prev := p;
        first := i;
      }
      names := names[p / 2 := name - 1];
      nm := nm + [name - 1];
      NameStoredStep(s, rk, sorted, names0, nm0, name0, names, nm, name);
    }
  }

  // ----- the reduced string -----

  lemma {:induction false} LmsSpread(s: seq<nat>, pos: seq<nat>, a: nat)
    requires LmsPositions(s, pos) && a < |pos|
    ensures pos[a] >= 2 * a + 1
  {
    if a > 0 {
      LmsSpread(s, pos, a - 1);
      assert pos[a - 1] < pos[a];
    }
  }

  lemma LmsCount(s: seq<nat>, pos: seq<nat>)
    requires Terminated(s) && |s| >= 2 && LmsPositions(s, pos)
    ensures 0 < |pos| && 2 * |pos| <= |s| && pos[|pos| - 1] == |s| - 1
  {
    LastIsLms(s);
    LmsSpread(s, pos, |pos| - 1);
    var a :| 0 <= a < |pos| && pos[a] == |s| - 1;
    assert a == |pos| - 1;
  }

  lemma ListingsAgree(s: seq<nat>, a: seq<nat>, b: seq<nat>)
    requires Listing(s, a) && Listing(s, b)
    ensures |a| == |b|
  {
    DistinctSize(a);
    DistinctSize(b);
    assert Elements(a) == Elements(b);
  }

  lemma PositionsList(s: seq<nat>, pos: seq<nat>)
    requires LmsPositions(s, pos)
    ensures Listing(s, pos)
  {
  }

  /** What naming leaves behind, as the reduction uses it. */
  ghost predicate Naming(s: seq<nat>, rk: seq<int>, sorted: seq<nat>, nm: seq<nat>, names: seq<nat>, name: nat) {
    && Terminated(s) && |s| >= 2 && Ranking(s, rk)
    && Listing(s, sorted) && LmsSorted(s, rk, sorted)
    && |nm| == |sorted| && Named(s, sorted, nm)
    && (forall b :: 0 <= b < |nm| ==> NameStored(names, sorted, nm, name, b))
  }

  lemma NameAt(s: seq<nat>, rk: seq<int>, sorted: seq<nat>, nm: seq<nat>, names: seq<nat>, name: nat, p: nat)
    returns (b: nat)
    requires Naming(s, rk, sorted, nm, names, name) && p < |s| && Lms(s, p)
    ensures b < |sorted| && sorted[b] == p
    ensures p / 2 < |names| && names[p / 2] == nm[b] < name
    ensures name == |sorted| ==> nm[b] == b
  {
    assert p in sorted;
    b :| 0 <= b < |sorted| && sorted[b] == p;
    assert NameStored(names, sorted, nm, name, b);
  }

  lemma NamingLists(s: seq<nat>, rk: seq<int>, sorted: seq<nat>, nm: seq<nat>, names: seq<nat>, name: nat)
    requires Naming(s, rk, sorted, nm, names, name)
    ensures Ranking(s, rk) && Terminated(s) && Listing(s, sorted) && LmsSorted(s, rk, sorted) && |nm| == |sorted|
  {
  }

  lemma NamesOrder(s: seq<nat>, rk: seq<int>, sorted: seq<nat>, nm: seq<nat>, names: seq<nat>, name: nat, p: nat,
                   q: nat)
    requires Naming(s, rk, sorted, nm, names, name) && p < |s| && q < |s| && Lms(s, p) && Lms(s, q)
    requires p / 2 < |names| && q / 2 < |names|
    ensures names[p / 2] == names[q / 2] ==> SubstringEq(s, p, q)
    ensures names[p / 2] < names[q / 2] ==> Less(s, p, q)
  {
    var b := NameAt(s, rk, sorted, nm, names, name, p);
    var d := NameAt(s, rk, sorted, nm, names, name, q);
    if b < d {
      assert NamedPair(s, sorted, nm, b, d);
      if nm[b] < nm[d] { SubstringDecides(s, rk, p, q); }
    } else if d < b {
      assert NamedPair(s, sorted, nm, d, b);
      SubstringEquivalence(s, q, p, p);
    }
  }

  lemma SentinelName(s: seq<nat>, rk: seq<int>, sorted: seq<nat>, nm: seq<nat>, names: seq<nat>, name: nat, p: nat)
    requires Naming(s, rk, sorted, nm, names, name) && p < |s| && Lms(s, p) && p / 2 < |names|
    ensures names[p / 2] == 0 <==> p == |s| - 1
  {
    var last := |s| - 1;
    LastIsLms(s);
    var b := NameAt(s, rk, sorted, nm, names, name, p);
    var d := NameAt(s, rk, sorted, nm, names, name, last);
    assert d > 0 ==> InducedLess(s, rk, sorted[0], sorted[d]);
    assert d == 0;
    assert NameStored(names, sorted, nm, name, 0);
    if p != last {
      NamesOrder(s, rk, sorted, nm, names, name, p, last);
    }
  }

  lemma ReducedText(s: seq<nat>, rk: seq<int>, sorted: seq<nat>, nm: seq<nat>, names: seq<nat>, name: nat,
                    pos: seq<nat>, r: seq<nat>)
    requires Naming(s, rk, sorted, nm, names, name) && LmsPositions(s, pos) && |r| == |pos|
    requires forall a :: 0 <= a < |pos| ==> pos[a] / 2 < |names| && r[a] == names[pos[a] / 2]
    ensures Names(s, pos, r) && Terminated(r)
    ensures forall a :: 0 <= a < |r| ==> r[a] < name
    ensures name <= |r| == |sorted| && 2 * |r| <= |s|
  {
    LmsCount(s, pos);
    PositionsList(s, pos);
    ListingsAgree(s, pos, sorted);
    assert NameStored(names, sorted, nm, name, 0);
    forall a | 0 <= a < |r| ensures r[a] < name && (r[a] == 0 <==> a == |r| - 1) {
      var b := NameAt(s, rk, sorted, nm, names, name, pos[a]);
      SentinelName(s, rk, sorted, nm, names, name, pos[a]);
    }
    forall a, b | 0 <= a < |pos| && 0 <= b < |pos|
      ensures r[a] == r[b] ==> SubstringEq(s, pos[a], pos[b])
      ensures r[a] < r[b] ==> Less(s, pos[a], pos[b])
    {
      NamesOrder(s, rk, sorted, nm, names, name, pos[a], pos[b]);
    }
  }

  lemma InverseSorts(r: seq<nat>, sub: seq<nat>)
    requires |sub| == |r| && forall q :: 0 <= q < |r| ==> r[q] < |r| && sub[q] < |r| && r[sub[q]] == q && sub[r[q]] == q
    ensures IsSuffixArray(r, sub)
  {
    forall p | 0 <= p < |r| ensures p in sub { assert sub[r[p]] == p; }
  }

  /** When all names differ, the suffix array of the reduced string is the inverse permutation. */
  method InvertNames(s: seq<nat>, ghost rk: seq<int>, ghost sorted: seq<nat>, ghost nm: seq<nat>, ghost names: seq<nat>,
                     name: nat, ghost pos: seq<nat>, r: seq<nat>) returns (sub: seq<nat>)
    requires Naming(s, rk, sorted, nm, names, name) && LmsPositions(s, pos) && |r| == |pos| == |sorted| == name
    requires forall a :: 0 <= a < |pos| ==> pos[a] / 2 < |names| && r[a] == names[pos[a] / 2]
    ensures IsSuffixArray(r, sub)
  {
    hide Naming, Terminated, Named, Ranking, Less, SType;
    NamingLists(s, rk, sorted, nm, names, name);
    forall a | 0 <= a < |r| ensures r[a] < |r| && sorted[r[a]] == pos[a] {
      var b := NameAt(s, rk, sorted, nm, names, name, pos[a]);
    }
    sub := seq(|r|, _ => 0);
    for i := 0 to |r|
      invariant |sub| == |r| && forall a :: 0 <= a < i ==> sub[r[a]] == a
    {
      forall a | 0 <= a < i ensures r[a] != r[i] { assert sorted[r[a]] == pos[a] < pos[i]; }
      sub := sub[r[i] := i];
    }
    forall q | 0 <= q < |r| ensures sub[q] < |r| && r[sub[q]] == q {
      assert sorted[q] in pos;
      var a :| 0 <= a < |pos| && pos[a] == sorted[q];
      var b := NameAt(s, rk, sorted, nm, names, name, pos[a]);
      assert b == q by { InducedIrreflexive(s, rk, sorted[q]); }
    }
    InverseSorts(r, sub);
  }

  // ----- the true order of the LMS suffixes -----

  lemma SubOrder(s: seq<nat>, pos: seq<nat>, r: seq<nat>, sub: seq<nat>, order: seq<nat>)
    requires Terminated(s) && LmsPositions(s, pos) && Names(s, pos, r) && IsSuffixArray(r, sub)
    requires |order| == |sub| && forall i :: 0 <= i < |sub| ==> order[i] == pos[sub[i]]
    ensures Listing(s, order)
    ensures forall b, d :: 0 <= b < d < |order| ==> Less(s, order[b], order[d])
  {
    forall b, d | 0 <= b < d < |order| ensures Less(s, order[b], order[d]) && order[b] != order[d] {
      ReducedOrder(s, pos, r, sub[b], sub[d]);
      LessIrreflexive(s, order[b]);
    }
    forall p | 0 <= p < |s| && Lms(s, p) ensures p in order {
      var a :| 0 <= a < |pos| && pos[a] == p;
      assert a in sub;
      var i :| 0 <= i < |sub| && sub[i] == a;
      assert order[i] == p;
    }
  }

  /** Seeded in their true order, the ranks of the LMS positions follow the suffix order. */
  lemma RanksFollowSuffixes(s: seq<nat>, a: seq<nat>, order: seq<nat>, rk: seq<int>, p: nat, q: nat)
    requires Terminated(s) && Listing(s, order) && Seeds(s, a, rk) && RanksFollow(s, order, rk)
    requires forall b, d :: 0 <= b < d < |order| ==> Less(s, order[b], order[d])
    requires p < |s| && q < |s| && Lms(s, p) && Lms(s, q) && rk[p] < rk[q]
    ensures Less(s, p, q)
  {
    SeedsRank(s, a, rk);
    var b :| 0 <= b < |order| && order[b] == p;
    var d :| 0 <= d < |order| && order[d] == q;
    if d < b { assert Less(s, q, p); }
  }

  lemma SortedIsSuffixArray(s: seq<nat>, a: seq<nat>, order: seq<nat>, rk: seq<int>, f: seq<nat>, at: seq<nat>)
    requires Terminated(s) && Listing(s, order) && Seeds(s, a, rk) && RanksFollow(s, order, rk)
    requires forall b, d :: 0 <= b < d < |order| ==> Less(s, order[b], order[d])
    requires Sorted(s, rk, f, at)
    ensures IsSuffixArray(s, f)
  {
    forall p, q | 0 <= p < |s| && 0 <= q < |s| && Lms(s, p) && Lms(s, q) && rk[p] < rk[q] ensures Less(s, p, q) {
      RanksFollowSuffixes(s, a, order, rk, p, q);
    }
    forall q, r | 0 <= q < r < |s| ensures Less(s, f[q], f[r]) {
      InducedIsSuffixOrder(s, rk, f[q], f[r]);
    }
    forall p | 0 <= p < |s| ensures p in f { assert f[at[p]] == p; }
  }

  /** First half of `sais`: sort and name the LMS substrings; what is left to sort is the reduced string. */
  method Reduce(s: seq<nat>, types: seq<bool>, counts: seq<nat>, pos: seq<nat>, sa: array<nat>)
    returns (r: seq<nat>, name: nat, ghost rk: seq<int>, ghost sorted: seq<nat>, ghost nm: seq<nat>,
             ghost names: seq<nat>)
    requires Terminated(s) && 2 <= |s| <= EMPTY && types == Types(s) && Counted(s, counts) && LmsPositions(s, pos)
    requires sa.Length == |s| && forall q :: 0 <= q < sa.Length ==> sa[q] == EMPTY
    modifies sa
    ensures Naming(s, rk, sorted, nm, names, name) && |r| == |pos|
    ensures forall a :: 0 <= a < |pos| ==> pos[a] / 2 < |names| && r[a] == names[pos[a] / 2]
  {
    PositionsList(s, pos);
    rk := PlaceSeeds(s, sa, counts, pos);
    SeedsRank(s, sa[..], rk);
    ghost var at := Induce(s, sa, types, counts, rk);
    var lmsSorted := FilterLms(s, types, sa[..], rk, at);
    var table;
    table, name, nm := NameSubstrings(s, types, lmsSorted, rk);
    sorted, names := lmsSorted, table;
    forall a | 0 <= a < |pos| ensures pos[a] / 2 < |table| {
      var b := NameAt(s, rk, sorted, nm, table, name, pos[a]);
    }
    r := seq(|pos|, a requires 0 <= a < |pos| => table[pos[a] / 2]);
  }

  /** The suffix array of `s`, whose symbols are below `k`. */
  method Sais(s: seq<nat>, k: nat) returns (result: seq<nat>)
    requires Terminated(s) && |s| <= EMPTY
    requires forall i :: 0 <= i < |s| ==> s[i] < k
    ensures IsSuffixArray(s, result)
    decreases |s|
  {
    if |s| == 1 {
      return [0];
    }
    var sa := new nat[|s|](_ => EMPTY);
    var types := Classify(s);
    var counts := Counts(s, k);
    var pos := CollectLms(s, types);

    var reduced, name;
    ghost var rk, sorted, nm, names;
    reduced, name, rk, sorted, nm, names := Reduce(s, types, counts, pos, sa);
    ReducedText(s, rk, sorted, nm, names, name, pos, reduced);

    var sub;
    if name < |pos| {
      sub := Sais(reduced, name);
    } else {
      sub := InvertNames(s, rk, sorted, nm, names, name, pos, reduced);
    }

    var order := seq(|sub|, i requires 0 <= i < |sub| => pos[sub[i]]);
    SubOrder(s, pos, reduced, sub, order);
    forall q | 0 <= q < sa.Length { sa[q] := EMPTY; }
    rk := PlaceSeeds(s, sa, counts, order);
    ghost var seeds := sa[..];
    ghost var at := Induce(s, sa, types, counts, rk);
    SortedIsSuffixArray(s, seeds, order, rk, sa[..], at);
    result := sa[..];
  }
}
