/** Facts about sequences, and sorting by an order, that more than one module needs. */
module Sequences {

  // ----- concatenations and slices -----

  lemma Associate<T>(a: seq<T>, b: seq<T>, c: seq<T>)
    ensures (a + b) + c == a + (b + c)
  {
  }

  lemma DropHead<T>(a: seq<T>, b: seq<T>)
    ensures (a + b)[|a|..] == b && (a + b)[..|a|] == a
  {
  }

  lemma DropAppend<T>(s: seq<T>, t: seq<T>, u: nat)
    requires u <= |s|
    ensures (s + t)[u..] == s[u..] + t && (s + t)[..u] == s[..u]
  {
  }

  lemma DropSum<T>(s: seq<T>, a: nat, b: nat)
    requires a + b <= |s|
    ensures s[a..][b..] == s[a + b..]
  {
  }

  lemma SliceOfRest<T>(s: seq<T>, a: nat, b: nat, n: nat)
    requires a + b + n <= |s|
    ensures s[a..][b..b + n] == s[a + b..a + b + n]
  {
  }

  lemma PartsOfSlice<T>(s: seq<T>, a: nat, b: nat, n: nat)
    requires a + n <= b <= |s|
    ensures s[a..b][..n] == s[a..a + n] && s[a..b][n..] == s[a + n..b]
  {
  }

  // ----- sorting -----

  /** Listing the numbers below `m` by an order that is total and transitive on them. */
  lemma {:induction false} SortBelow(less: (nat, nat) -> bool, m: nat) returns (a: seq<nat>)
    requires forall i, j :: 0 <= i < m && 0 <= j < m && i != j ==> less(i, j) || less(j, i)
    requires forall i, j, k :: 0 <= i < m && 0 <= j < m && 0 <= k < m && less(i, j) && less(j, k) ==> less(i, k)
    ensures |a| == m && forall q :: 0 <= q < m ==> a[q] < m
    ensures forall p :: 0 <= p < m ==> p in a
    ensures forall q, r :: 0 <= q < r < m ==> less(a[q], a[r])
  {
    if m == 0 {
      a := [];
    } else {
      var x := m - 1;
      var g := SortBelow(less, x);
      var k := 0;
      while k < |g| && less(g[k], x)
        invariant k <= |g|
        invariant forall q :: 0 <= q < k ==> less(g[q], x)
      {
        k := k + 1;
      }
      a := g[..k] + [x] + g[k..];
      forall q | k <= q < |g| ensures less(x, g[q]) {
        assert less(x, g[k]);
        if q > k { assert less(g[k], g[q]); }
      }
      forall p | 0 <= p < m ensures p in a {
        if p == x {
          assert a[k] == x;
        } else {
          assert p in g[..k] + g[k..] by { assert g == g[..k] + g[k..]; }
        }
      }
    }
  }
}
