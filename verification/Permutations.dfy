/** Permutations of index ranges, and what they leave unchanged. */
module Permutations {
  import opened SuffixOrder

  ghost predicate Permutation(p: seq<nat>) {
    && (forall i :: 0 <= i < |p| ==> p[i] < |p|)
    && (forall i, j :: 0 <= i < j < |p| ==> p[i] != p[j])
  }

  function Identity(n: nat): (p: seq<nat>)
    ensures |p| == n && forall i :: 0 <= i < n ==> p[i] == i
  {
    seq(n, i requires 0 <= i => i)
  }

  lemma Onto(p: seq<nat>, x: nat)
    requires Permutation(p) && x < |p|
    ensures x in p
  {
    if x !in p {
      var q, all := p + [x], Identity(|p|);
      DistinctSize(q);
      DistinctSize(all);
      forall y | y in Elements(q) ensures y in Elements(all) { assert all[y] == y; }
      SubsetSize(Elements(q), Elements(all));
    }
  }

  lemma {:induction false} DistinctMultiset(xs: seq<nat>, x: nat)
    requires forall i, j :: 0 <= i < j < |xs| ==> xs[i] != xs[j]
    ensures multiset(xs)[x] == if x in xs then 1 else 0
  {
    if xs != [] {
      var ys := xs[..|xs| - 1];
      DistinctMultiset(ys, x);
      assert xs == ys + [xs[|xs| - 1]];
    }
  }

  lemma PermutationMultiset(p: seq<nat>, q: seq<nat>)
    requires Permutation(p) && Permutation(q) && |p| == |q|
    ensures multiset(p) == multiset(q)
  {
    forall x: nat ensures multiset(p)[x] == multiset(q)[x] {
      DistinctMultiset(p, x);
      DistinctMultiset(q, x);
      if x < |p| { Onto(p, x); Onto(q, x); }
    }
  }

  /** The elements of `v` at the positions `p`. */
  function Gather<T>(v: seq<T>, p: seq<nat>): (r: seq<T>)
    requires forall i :: 0 <= i < |p| ==> p[i] < |v|
    ensures |r| == |p| && forall i :: 0 <= i < |p| ==> r[i] == v[p[i]]
  {
    seq(|p|, i requires 0 <= i < |p| => v[p[i]])
  }

  lemma RemoveOne<T>(q: seq<T>, k: nat)
    requires k < |q|
    ensures multiset(q) == multiset(q[..k] + q[k + 1..]) + multiset{q[k]}
  {
    assert q == q[..k] + [q[k]] + q[k + 1..];
  }

  lemma RemoveSame<T>(p: seq<T>, j: nat, q: seq<T>, k: nat)
    requires j < |p| && k < |q| && p[j] == q[k] && multiset(p) == multiset(q)
    ensures multiset(p[..j] + p[j + 1..]) == multiset(q[..k] + q[k + 1..])
  {
    RemoveOne(p, j);
    RemoveOne(q, k);
    assert multiset(p[..j] + p[j + 1..]) == multiset(p) - multiset{p[j]};
    assert multiset(q[..k] + q[k + 1..]) == multiset(q) - multiset{q[k]};
  }

  lemma GatherRemove<T>(v: seq<T>, q: seq<nat>, k: nat, q': seq<nat>)
    requires forall i :: 0 <= i < |q| ==> q[i] < |v|
    requires k < |q| && q' == q[..k] + q[k + 1..]
    ensures forall i :: 0 <= i < |q'| ==> q'[i] < |v|
    ensures multiset(Gather(v, q)) == multiset(Gather(v, q')) + multiset{v[q[k]]}
  {
    var r := Gather(v, q);
    assert Gather(v, q') == r[..k] + r[k + 1..];
    RemoveOne(r, k);
  }

  lemma {:induction false} GatherMultiset<T>(v: seq<T>, p: seq<nat>, q: seq<nat>)
    requires forall i :: 0 <= i < |p| ==> p[i] < |v|
    requires forall i :: 0 <= i < |q| ==> q[i] < |v|
    requires multiset(p) == multiset(q)
    ensures multiset(Gather(v, p)) == multiset(Gather(v, q))
    decreases |p|
  {
    assert |p| == |multiset(p)| == |multiset(q)| == |q|;
    if p != [] {
      assert p[0] in multiset(q);
      var k :| 0 <= k < |q| && q[k] == p[0];
      var p', q' := p[..0] + p[1..], q[..k] + q[k + 1..];
      GatherRemove(v, p, 0, p');
      GatherRemove(v, q, k, q');
      RemoveSame(p, 0, q, k);
      GatherMultiset(v, p', q');
    }
  }

  lemma PermutedMultiset<T>(v: seq<T>, p: seq<nat>)
    requires Permutation(p) && |p| == |v|
    ensures multiset(Gather(v, p)) == multiset(v)
  {
    var id := Identity(|v|);
    PermutationMultiset(p, id);
    GatherMultiset(v, p, id);
    assert Gather(v, id) == v;
  }

  // ----- sums -----

  function Sum(v: seq<nat>): nat {
    if v == [] then 0 else Sum(v[..|v| - 1]) + v[|v| - 1]
  }

  lemma {:induction false} SumAppend(a: seq<nat>, b: seq<nat>)
    ensures Sum(a + b) == Sum(a) + Sum(b)
    decreases |b|
  {
    if b == [] {
      assert a + b == a;
    } else {
      assert (a + b)[..|a + b| - 1] == a + b[..|b| - 1];
      SumAppend(a, b[..|b| - 1]);
    }
  }

  lemma SumMore(a: seq<nat>, x: nat)
    ensures Sum(a + [x]) == Sum(a) + x
  {
    assert (a + [x])[..|a|] == a;
  }

  lemma SumRemove(v: seq<nat>, k: nat)
    requires k < |v|
    ensures Sum(v) == Sum(v[..k] + v[k + 1..]) + v[k]
  {
    hide Sum;
    var a, x, b := v[..k], v[k], v[k + 1..];
    assert v == a + [x] + b;
    SumMore(a, x);
    SumAppend(a + [x], b);
    SumAppend(a, b);
  }

  lemma {:induction false} SumOfMultiset(a: seq<nat>, b: seq<nat>)
    requires multiset(a) == multiset(b)
    ensures Sum(a) == Sum(b)
    decreases |a|
  {
    assert |a| == |multiset(a)| == |multiset(b)| == |b|;
    if a != [] {
      assert a[0] in multiset(b);
      var k :| 0 <= k < |b| && b[k] == a[0];
      RemoveSame(a, 0, b, k);
      SumRemove(a, 0);
      SumRemove(b, k);
      SumOfMultiset(a[..0] + a[1..], b[..k] + b[k + 1..]);
    }
  }

  /** A sum does not depend on the order of its terms. */
  lemma SumPermuted(v: seq<nat>, p: seq<nat>)
    requires Permutation(p) && |p| == |v|
    ensures Sum(Gather(v, p)) == Sum(v)
  {
    PermutedMultiset(v, p);
    SumOfMultiset(Gather(v, p), v);
  }
}
