/** The Burrows-Wheeler transform and its inverse.

    `Transform` sorts rotations through the suffix array of the doubled block. The inverse
    threads the last column (`Thread`) and unwinds it from the original pointer (`Unwind`).
    Equal rotations of a periodic block may be listed in any order: what the inverse relies on
    is that the rows, read as strings, are sorted.
 */
module Bwt {
  import opened Bits
  import opened SuffixOrder
  import opened InducedOrder
  import opened InducedSort
  import opened Permutations
  import opened SuffixArrays

  // ----- lexicographic order of strings -----

  predicate LexLe(a: seq<byte>, b: seq<byte>) {
    a == [] || (b != [] && (a[0] < b[0] || (a[0] == b[0] && LexLe(a[1..], b[1..]))))
  }

  lemma {:induction false} LexReflexive(a: seq<byte>)
    ensures LexLe(a, a)
  {
    if a != [] { LexReflexive(a[1..]); }
  }

  lemma {:induction false} LexAntisymmetric(a: seq<byte>, b: seq<byte>)
    requires |a| == |b| && LexLe(a, b) && LexLe(b, a)
    ensures a == b
  {
    if a != [] {
      LexAntisymmetric(a[1..], b[1..]);
      assert a == [a[0]] + a[1..] && b == [b[0]] + b[1..];
    }
  }

  lemma {:induction false} LexPrefix(a: seq<byte>, b: seq<byte>, k: nat)
    requires |a| == |b| && k <= |a| && LexLe(a, b)
    ensures LexLe(a[..k], b[..k])
  {
    if k > 0 && a[0] == b[0] {
      LexPrefix(a[1..], b[1..], k - 1);
      assert a[1..][..k - 1] == a[..k][1..] && b[1..][..k - 1] == b[..k][1..];
    }
  }

  // ----- sorted lists of strings are determined by their elements -----

  ghost predicate SortedRows(rows: seq<seq<byte>>) {
    forall a, b :: 0 <= a < b < |rows| ==> LexLe(rows[a], rows[b])
  }

  lemma LeastFirst(a: seq<seq<byte>>, b: seq<seq<byte>>)
    requires SortedRows(a) && multiset(a) == multiset(b) && a != [] && b != []
    ensures LexLe(a[0], b[0])
  {
    assert b[0] in multiset(a);
    var k :| 0 <= k < |a| && a[k] == b[0];
    LexReflexive(a[0]);
  }

  lemma TailRows(a: seq<seq<byte>>)
    requires a != []
    ensures a == [a[0]] + a[1..] && multiset(a[1..]) == multiset(a) - multiset{a[0]}
  {
    assert a == [a[0]] + a[1..];
  }

  lemma {:induction false} SortedRowsUnique(a: seq<seq<byte>>, b: seq<seq<byte>>, n: nat)
    requires SortedRows(a) && SortedRows(b) && multiset(a) == multiset(b)
    requires (forall r :: r in a ==> |r| == n) && (forall r :: r in b ==> |r| == n)
    ensures a == b
  {
    hide LexLe;
    assert |a| == |multiset(a)| == |multiset(b)| == |b|;
    if a != [] {
      LeastFirst(a, b);
      LeastFirst(b, a);
      LexAntisymmetric(a[0], b[0]);
      TailRows(a);
      TailRows(b);
      SortedRowsUnique(a[1..], b[1..], n);
    }
  }

  // ----- rotations -----

  function Rotation(block: seq<byte>, p: nat): (r: seq<byte>)
    requires p <= |block|
    ensures |r| == |block|
  {
    block[p..] + block[..p]
  }

  /** All rotations, by starting position. */
  function AllRotations(block: seq<byte>): (r: seq<seq<byte>>)
    ensures |r| == |block| && forall p :: 0 <= p < |block| ==> r[p] == Rotation(block, p)
  {
    seq(|block|, p requires 0 <= p < |block| => Rotation(block, p))
  }

  function Rotations(block: seq<byte>, ps: seq<nat>): (r: seq<seq<byte>>)
    requires forall i :: 0 <= i < |ps| ==> ps[i] < |block|
    ensures |r| == |ps| && forall i :: 0 <= i < |ps| ==> r[i] == Rotation(block, ps[i])
  {
    Gather(AllRotations(block), ps)
  }

  /** `rows` lists the starts of all rotations so that the rotations are sorted. */
  ghost predicate SortedRotations(block: seq<byte>, rows: seq<nat>) {
    |rows| == |block| && Permutation(rows) && SortedRows(Rotations(block, rows))
  }

  /** The position before `p`, cyclically. */
  function Before(p: nat, n: nat): (q: nat)
    requires p < n
    ensures q < n
  {
    if p == 0 then n - 1 else p - 1
  }

  lemma BeforeIsModular(p: nat, n: nat)
    requires p < n
    ensures (p + n - 1) % n == Before(p, n)
  {
    if p > 0 { DivModUnique(p + n - 1, n, 1, p - 1); } else { DivModUnique(n - 1, n, 0, n - 1); }
  }

  /** `last` and `ptr` are a Burrows-Wheeler transform of `block`. */
  ghost predicate IsTransform(block: seq<byte>, rows: seq<nat>, last: seq<byte>, ptr: nat) {
    && SortedRotations(block, rows)
    && |last| == |block| && (forall r :: 0 <= r < |rows| ==> last[r] == block[Before(rows[r], |block|)])
    && ptr < |rows| && rows[ptr] == 0
  }

  lemma LastOfRotation(block: seq<byte>, p: nat)
    requires p < |block|
    ensures Rotation(block, p)[|block| - 1] == block[Before(p, |block|)]
  {
  }

  /** A block has one last column, and its rows are the same strings, whatever way equal rotations are ordered. */
  lemma ColumnIsUnique(block: seq<byte>, rows: seq<nat>, last: seq<byte>, ptr: nat, rows': seq<nat>, last': seq<byte>,
                       ptr': nat)
    requires IsTransform(block, rows, last, ptr) && IsTransform(block, rows', last', ptr')
    ensures Rotations(block, rows) == Rotations(block, rows') && last == last'
  {
    hide LexLe, Rotation;
    PermutationMultiset(rows, rows');
    GatherMultiset(AllRotations(block), rows, rows');
    SortedRowsUnique(Rotations(block, rows), Rotations(block, rows'), |block|);
    forall r | 0 <= r < |block| ensures last[r] == last'[r] {
      LastOfRotation(block, rows[r]);
      LastOfRotation(block, rows'[r]);
      assert Rotations(block, rows)[r] == Rotations(block, rows')[r];
    }
  }

  // ----- the inverse: last-to-first mapping -----

  function CountLess(s: seq<byte>, c: nat): nat {
    if s == [] then 0 else CountLess(s[..|s| - 1], c) + if s[|s| - 1] < c then 1 else 0
  }

  function CountEq(s: seq<byte>, c: nat): nat {
    if s == [] then 0 else CountEq(s[..|s| - 1], c) + if s[|s| - 1] == c then 1 else 0
  }

  /** The row whose rotation starts with the last byte of row `i`. */
  function Lf(last: seq<byte>, i: nat): nat
    requires i < |last|
  {
    CountLess(last, last[i]) + CountEq(last[..i], last[i])
  }

  lemma {:induction false} CountLessNext(s: seq<byte>, c: nat)
    ensures CountLess(s, c + 1) == CountLess(s, c) + CountEq(s, c)
  {
    if s != [] { CountLessNext(s[..|s| - 1], c); }
  }

  lemma {:induction false} CountLessMono(s: seq<byte>, c: nat, d: nat)
    requires c <= d
    ensures CountLess(s, c) <= CountLess(s, d) <= |s|
  {
    if s != [] { CountLessMono(s[..|s| - 1], c, d); }
  }

  lemma {:induction false} CountEqPrefix(s: seq<byte>, i: nat, j: nat, c: nat)
    requires i <= j <= |s|
    ensures CountEq(s[..i], c) <= CountEq(s[..j], c)
    ensures i < j && s[i] == c ==> CountEq(s[..i], c) < CountEq(s[..j], c)
    decreases j
  {
    if i < j {
      CountEqPrefix(s, i, j - 1, c);
      assert s[..j][..j - 1] == s[..j - 1];
    }
  }

  lemma LfOrder(last: seq<byte>, i: nat, j: nat)
    requires i < |last| && j < |last|
    requires last[i] < last[j] || (last[i] == last[j] && i < j)
    ensures Lf(last, i) < Lf(last, j)
  {
    assert last[..|last|] == last;
    if i < j { CountEqPrefix(last, i, j, last[i]); }
    CountEqPrefix(last, i, |last|, last[i]);
    CountLessNext(last, last[i]);
    if last[i] < last[j] { CountLessMono(last, last[i] + 1, last[j]); }
  }

  lemma LfInRange(last: seq<byte>, i: nat)
    requires i < |last|
    ensures Lf(last, i) < |last|
  {
    assert last[..|last|] == last;
    CountEqPrefix(last, i, |last|, last[i]);
    CountLessNext(last, last[i]);
    var next := (last[i] as int) + 1;
    CountLessMono(last, next, next);
  }

  lemma LfOnto(last: seq<byte>, j: nat)
    requires j < |last|
    ensures exists i :: 0 <= i < |last| && Lf(last, i) == j
  {
    var p := seq(|last|, i requires 0 <= i < |last| => Lf(last, i));
    forall i | 0 <= i < |last| ensures p[i] < |last| { LfInRange(last, i); }
    forall i, k | 0 <= i < k < |last| ensures p[i] != p[k] {
      if last[i] <= last[k] { LfOrder(last, i, k); } else { LfOrder(last, k, i); }
    }
    Onto(p, j);
    var i :| 0 <= i < |p| && p[i] == j;
  }

  /** The inverse of `Lf`: what cell `j` of the threaded vector points to. */
  ghost function Psi(last: seq<byte>, j: nat): (i: nat)
    requires j < |last|
    ensures i < |last| && Lf(last, i) == j
  {
    LfOnto(last, j);
    var i :| 0 <= i < |last| && Lf(last, i) == j;
    i
  }

  /** The bytes emitted in `k` steps from cell `j`. */
  ghost function Unwind(last: seq<byte>, j: nat, k: nat): (out: seq<byte>)
    requires j < |last|
    ensures |out| == k
    decreases k
  {
    if k == 0 then [] else [last[Psi(last, j)]] + Unwind(last, Psi(last, j), k - 1)
  }

  ghost function Inverse(last: seq<byte>, ptr: nat): (out: seq<byte>)
    requires ptr < |last|
  {
    Unwind(last, ptr, |last|)
  }

  // ----- inverting a transform -----

  /** Row `j`, obtained from the row its cell points to by moving the last byte to the front. */
  ghost function Predicted(block: seq<byte>, rows: seq<nat>, last: seq<byte>, j: nat): (r: seq<byte>)
    requires |rows| == |last| == |block| && j < |rows| && Permutation(rows)
  {
    [last[Psi(last, j)]] + Rotation(block, rows[Psi(last, j)])[..|block| - 1]
  }

  lemma PredictedSorted(block: seq<byte>, rows: seq<nat>, last: seq<byte>, j: nat, k: nat)
    requires SortedRotations(block, rows) && |last| == |block| && j < k < |rows|
    ensures LexLe(Predicted(block, rows, last, j), Predicted(block, rows, last, k))
  {
    var a, b := Psi(last, j), Psi(last, k);
    if last[b] < last[a] || (last[b] == last[a] && b < a) { LfOrder(last, b, a); }
    var x, y := Predicted(block, rows, last, j), Predicted(block, rows, last, k);
    if last[a] == last[b] {
      var r := Rotations(block, rows);
      assert a < b;
      assert LexLe(r[a], r[b]);
      LexPrefix(r[a], r[b], |block| - 1);
      assert x[1..] == r[a][..|block| - 1] && y[1..] == r[b][..|block| - 1];
    }
  }

  lemma RotationBefore(block: seq<byte>, p: nat)
    requires p < |block|
    ensures var q := Before(p, |block|);
      Rotation(block, q) == [block[q]] + Rotation(block, p)[..|block| - 1]
  {
    var n := |block|;
    if p == 0 {
      assert Rotation(block, 0) == block;
    } else {
      assert Rotation(block, p)[..n - 1] == block[p..] + block[..p - 1];
      assert block[p - 1..] == [block[p - 1]] + block[p..];
    }
  }

  ghost function PredictedStarts(rows: seq<nat>, last: seq<byte>): (ps: seq<nat>)
    requires |rows| == |last| && Permutation(rows)
    ensures |ps| == |rows|
    ensures forall k :: 0 <= k < |rows| ==> ps[k] == Before(rows[Psi(last, k)], |rows|)
  {
    seq(|rows|, k requires 0 <= k < |rows| => Before(rows[Psi(last, k)], |rows|))
  }

  lemma PredictedStartsPermute(rows: seq<nat>, last: seq<byte>)
    requires |rows| == |last| && Permutation(rows)
    ensures Permutation(PredictedStarts(rows, last))
  {
    var ps := PredictedStarts(rows, last);
    forall i, k | 0 <= i < k < |ps| ensures ps[i] != ps[k] {
      assert Lf(last, Psi(last, i)) != Lf(last, Psi(last, k));
    }
  }

  lemma PredictedRotations(block: seq<byte>, rows: seq<nat>, last: seq<byte>, ptr: nat, ps: seq<nat>)
    requires IsTransform(block, rows, last, ptr) && ps == PredictedStarts(rows, last) && Permutation(ps)
    ensures Rotations(block, ps) == Rotations(block, rows)
    ensures forall k :: 0 <= k < |ps| ==> Rotation(block, ps[k]) == Predicted(block, rows, last, k)
  {
    forall k | 0 <= k < |ps| ensures Rotation(block, ps[k]) == Predicted(block, rows, last, k) {
      RotationBefore(block, rows[Psi(last, k)]);
    }
    PermutationMultiset(ps, rows);
    GatherMultiset(AllRotations(block), ps, rows);
    var predicted := Rotations(block, ps);
    forall i, k | 0 <= i < k < |ps| ensures LexLe(predicted[i], predicted[k]) {
      PredictedSorted(block, rows, last, i, k);
    }
    SortedRowsUnique(predicted, Rotations(block, rows), |block|);
  }

  lemma PredictedRows(block: seq<byte>, rows: seq<nat>, last: seq<byte>, ptr: nat, j: nat)
    requires IsTransform(block, rows, last, ptr) && j < |rows|
    ensures Predicted(block, rows, last, j) == Rotation(block, rows[j])
  {
    PredictedStartsPermute(rows, last);
    var ps := PredictedStarts(rows, last);
    PredictedRotations(block, rows, last, ptr, ps);
    assert Rotations(block, ps)[j] == Rotations(block, rows)[j];
  }

  /** Following cell `j` rotates its row by one and emits the row's first byte. */
  ghost predicate CellRotates(last: seq<byte>, rows: seq<seq<byte>>, j: nat)
    requires |rows| == |last| && j < |rows|
  {
    var i := Psi(last, j);
    |rows[j]| == |rows[i]| == |last| && last[i] == rows[j][0] && rows[j][1..] == rows[i][..|last| - 1]
  }

  lemma TakeCons<T>(a: seq<T>, b: seq<T>, k: nat)
    requires |a| == |b| && 0 < k <= |a| && a[1..] == b[..|b| - 1]
    ensures a[..k] == [a[0]] + b[..k - 1]
  {
    assert a[..k][1..] == a[1..][..k - 1];
  }

  lemma {:induction false} UnwindRow(last: seq<byte>, rows: seq<seq<byte>>, j: nat, k: nat)
    requires |rows| == |last| && forall c :: 0 <= c < |rows| ==> CellRotates(last, rows, c)
    requires j < |rows| && k <= |last| == |rows[j]|
    ensures Unwind(last, j, k) == rows[j][..k]
    decreases k
  {
    if k > 0 {
      var i := Psi(last, j);
      assert CellRotates(last, rows, j);
      UnwindRow(last, rows, i, k - 1);
      TakeCons(rows[j], rows[i], k);
    }
  }

  /** The inverse restores the block, however equal rotations were ordered. */
  lemma InverseTransform(block: seq<byte>, rows: seq<nat>, last: seq<byte>, ptr: nat)
    requires IsTransform(block, rows, last, ptr)
    ensures Inverse(last, ptr) == block
  {
    var strings := Rotations(block, rows);
    forall j | 0 <= j < |strings| ensures CellRotates(last, strings, j) {
      PredictedRows(block, rows, last, ptr, j);
    }
    UnwindRow(last, strings, ptr, |block|);
    assert Rotation(block, 0) == block;
  }

  // ----- the forward transform -----

  function Shifted(b: byte): nat {
    b as int + 1
  }

  /** The block twice, shifted up by one so that 0 can close it. */
  function Doubled(block: seq<byte>): (d: seq<nat>)
    ensures |d| == 2 * |block| + 1
  {
    var n := |block|;
    seq(2 * n + 1, i requires 0 <= i <= 2 * n =>
      if i < n then Shifted(block[i]) else if i < 2 * n then Shifted(block[i - n]) else 0)
  }

  /** A block for which the comparison of LMS substrings takes two for equal although their closing symbols differ. */
  lemma ClosingSymbolsDiffer()
    ensures var s := Doubled([0, 2, 1, 2]);
      Terminated(s) && Lms(s, 2) && Lms(s, 6) && SubstringEq(s, 2, 6) && !SubstringSame(s, 2, 6)
  {
    var block: seq<byte> := [0, 2, 1, 2];
    var s := Doubled(block);
    assert s == [1, 3, 2, 3, 1, 3, 2, 3, 0];
    assert SType(s, 2) && !SType(s, 3) && SType(s, 4) && !SType(s, 5) && SType(s, 6) && !SType(s, 7) && SType(s, 8);
    assert TailEq(s, 4, 8) && TailEq(s, 3, 7);
    assert !TailSame(s, 4, 8);
  }

  /** The entries of `sa` below `n`, in order. */
  function Keep(sa: seq<nat>, n: nat): (r: seq<nat>) {
    if sa == [] then [] else Keep(sa[..|sa| - 1], n) + if sa[|sa| - 1] < n then [sa[|sa| - 1]] else []
  }

  lemma {:induction false} KeepPrefix(sa: seq<nat>, n: nat, i: nat)
    requires i <= |sa|
    ensures Keep(sa[..i], n) <= Keep(sa, n)
    decreases |sa| - i
  {
    if i == |sa| {
      assert sa[..i] == sa;
    } else {
      KeepPrefix(sa, n, i + 1);
      assert sa[..i + 1][..i] == sa[..i];
    }
  }

  ghost function Rows(block: seq<byte>): seq<nat> {
    Keep(SuffixArray(Doubled(block)), |block|)
  }

  /** Position of the unrotated block among the rows. */
  ghost function OrigPtr(block: seq<byte>): (ptr: nat)
    requires |block| > 0
    ensures ptr < |Rows(block)| == |block| && Rows(block)[ptr] == 0
  {
    RowsSorted(block);
    Onto(Rows(block), 0);
    var ptr :| 0 <= ptr < |Rows(block)| && Rows(block)[ptr] == 0;
    ptr
  }

  ghost function LastColumn(block: seq<byte>): (last: seq<byte>)
    ensures |last| == |block|
  {
    RowsSorted(block);
    var rows := Rows(block);
    seq(|block|, r requires 0 <= r < |block| => block[Before(rows[r], |block|)])
  }

  lemma {:induction false} KeepMembers(sa: seq<nat>, n: nat, x: nat)
    ensures x in Keep(sa, n) <==> x in sa && x < n
  {
    if sa != [] {
      KeepMembers(sa[..|sa| - 1], n, x);
      assert sa == sa[..|sa| - 1] + [sa[|sa| - 1]];
    }
  }

  lemma {:induction false} KeepOrder(s: seq<nat>, sa: seq<nat>, n: nat, a: nat, b: nat)
    requires forall q :: 0 <= q < |sa| ==> sa[q] < |s|
    requires forall q, r :: 0 <= q < r < |sa| ==> Less(s, sa[q], sa[r])
    requires a < b < |Keep(sa, n)|
    ensures Keep(sa, n)[a] < |s| && Keep(sa, n)[b] < |s| && Less(s, Keep(sa, n)[a], Keep(sa, n)[b])
  {
    var m := |sa| - 1;
    var k := Keep(sa[..m], n);
    if b < |k| {
      KeepOrder(s, sa[..m], n, a, b);
    } else {
      KeepMembers(sa[..m], n, k[a]);
      assert k[a] in k;
    }
  }

  lemma {:induction false} LessIsLex(s: seq<nat>, p: nat, q: nat, a: seq<byte>, b: seq<byte>)
    requires |a| == |b| && p + |a| < |s| && q + |b| < |s| && Less(s, p, q)
    requires forall e :: 0 <= e < |a| ==> s[p + e] == Shifted(a[e]) && s[q + e] == Shifted(b[e])
    ensures LexLe(a, b)
    decreases |a|
  {
    if a != [] {
      assert s[p + 0] == Shifted(a[0]) && s[q + 0] == Shifted(b[0]);
      if a[0] == b[0] {
        forall e | 0 <= e < |a| - 1
          ensures s[p + 1 + e] == Shifted(a[1..][e]) && s[q + 1 + e] == Shifted(b[1..][e])
        {
          assert s[p + (e + 1)] == Shifted(a[e + 1]) && s[q + (e + 1)] == Shifted(b[e + 1]);
        }
        LessIsLex(s, p + 1, q + 1, a[1..], b[1..]);
      }
    }
  }

  lemma DoubledRotation(block: seq<byte>, p: nat, e: nat)
    requires p < |block| && e < |block|
    ensures Doubled(block)[p + e] == Shifted(Rotation(block, p)[e])
  {
  }

  lemma RowsSorted(block: seq<byte>)
    ensures SortedRotations(block, Rows(block))
  {
    var d, n, rows := Doubled(block), |block|, Rows(block);
    var sa := SuffixArray(d);
    forall a | 0 <= a < |rows| ensures rows[a] < n {
      assert rows[a] in rows;
      KeepMembers(sa, n, rows[a]);
    }
    forall a, b | 0 <= a < b < |rows|
      ensures rows[a] != rows[b] && LexLe(Rotation(block, rows[a]), Rotation(block, rows[b]))
    {
      KeepOrder(d, sa, n, a, b);
      LessIrreflexive(d, rows[a]);
      var p, q := rows[a], rows[b];
      forall e | 0 <= e < n
        ensures d[p + e] == Shifted(Rotation(block, p)[e]) && d[q + e] == Shifted(Rotation(block, q)[e])
      {
        DoubledRotation(block, p, e);
        DoubledRotation(block, q, e);
      }
      LessIsLex(d, p, q, Rotation(block, p), Rotation(block, q));
    }
    RowsComplete(block);
  }

  lemma RowsComplete(block: seq<byte>)
    requires forall a :: 0 <= a < |Rows(block)| ==> Rows(block)[a] < |block|
    requires forall a, b :: 0 <= a < b < |Rows(block)| ==> Rows(block)[a] != Rows(block)[b]
    ensures |Rows(block)| == |block|
  {
    var n, rows, sa := |block|, Rows(block), SuffixArray(Doubled(block));
    var all := seq(n, i requires 0 <= i < n => i as nat);
    DistinctSize(rows);
    DistinctSize(all);
    forall x | 0 <= x < n ensures x in rows && all[x] == x { KeepMembers(sa, n, x); }
    forall x | x in Elements(all) ensures x in Elements(rows) { }
    forall x | x in Elements(rows) ensures x in Elements(all) { assert all[x] == x; }
    assert Elements(rows) == Elements(all);
  }

  /** The forward transform has the property that the inverse needs. */
  lemma TransformIsTransform(block: seq<byte>)
    requires |block| > 0
    ensures IsTransform(block, Rows(block), LastColumn(block), OrigPtr(block))
  {
    RowsSorted(block);
  }

  /** Transforming and inverting gives back every non-empty block, periodic ones included. */
  lemma RoundTrip(block: seq<byte>)
    requires |block| > 0
    ensures Inverse(LastColumn(block), OrigPtr(block)) == block
  {
    TransformIsTransform(block);
    InverseTransform(block, Rows(block), LastColumn(block), OrigPtr(block));
  }

  lemma DoubledTerminated(block: seq<byte>)
    requires |block| > 0
    ensures Terminated(Doubled(block)) && forall i :: 0 <= i < |Doubled(block)| ==> Doubled(block)[i] < 257
  {
  }

  /** The column before each row that is a rotation of the block. */
  method ReadColumn(block: seq<byte>, sa: seq<nat>) returns (last: seq<byte>, origPtr: nat)
    requires 0 < |block| && sa == SuffixArray(Doubled(block))
    ensures last == LastColumn(block) && origPtr == OrigPtr(block)
  {
    hide SuffixArray, Less, LexLe;
    var n := |block|;
    ghost var rows := Rows(block);
    RowsSorted(block);
    last, origPtr := [], 0;
    for i := 0 to |sa|
      invariant |last| == |Keep(sa[..i], n)| <= n && Keep(sa[..i], n) <= rows
      invariant last == LastColumn(block)[..|last|]
      invariant forall r :: 0 <= r < |last| && rows[r] == 0 ==> origPtr == r
    {
      var p := sa[i];
      var next := i + 1;
      assert sa[..next][..i] == sa[..i];
      KeepPrefix(sa, n, next);
      if p < n {
        assert rows[|last|] == p;
        if p == 0 { origPtr := |last|; }
        BeforeIsModular(p, n);
        last := last + [block[(p + n - 1) % n]];
      }
    }
    assert sa[..|sa|] == sa;
    assert LastColumn(block)[..n] == LastColumn(block);
    assert rows[OrigPtr(block)] == 0;
  }

  method Double(block: seq<byte>) returns (doubled: seq<nat>)
    ensures doubled == Doubled(block)
  {
    var n := |block|;
    doubled := [];
    for pass := 0 to 2
      invariant |doubled| == pass * n
      invariant forall i :: 0 <= i < |doubled| ==> doubled[i] == Doubled(block)[i]
    {
      doubled := doubled + seq(n, i requires 0 <= i < n => Shifted(block[i]));
    }
    doubled := doubled + [0];
  }

  /** `transform`. Positions in the doubled block must be distinguishable from `EMPTY`. */
  method Transform(block: seq<byte>) returns (last: seq<byte>, origPtr: nat)
    requires 0 < |block| && 2 * |block| + 1 <= EMPTY
    ensures last == LastColumn(block) && origPtr == OrigPtr(block)
  {
    if |block| == 1 {
      RowsSorted(block);
      last, origPtr := [block[0]], 0;
    } else {
      var doubled := Double(block);
      DoubledTerminated(block);
      var sa := Sais(doubled, 257);
      SuffixArrayUnique(doubled, sa, SuffixArray(doubled));
      last, origPtr := ReadColumn(block, sa);
    }
  }

  // ----- threading -----

  /** Cell `j` of the threaded vector: the row it leads to, and that row's last byte. */
  ghost function Cell(last: seq<byte>, j: nat): nat
    requires j < |last|
  {
    Psi(last, j) * 256 + last[Psi(last, j)]
  }

  lemma {:induction false} CountLessZero(s: seq<byte>)
    ensures CountLess(s, 0) == 0
  {
    if s != [] { CountLessZero(s[..|s| - 1]); }
  }

  lemma LfInjective(last: seq<byte>, i: nat, k: nat)
    requires i < |last| && k < |last| && i != k
    ensures Lf(last, i) != Lf(last, k)
  {
    if last[i] < last[k] || (last[i] == last[k] && i < k) { LfOrder(last, i, k); } else { LfOrder(last, k, i); }
  }

  /** Turn byte counts into the first slot of each byte value. */
  method Accumulate(last: seq<byte>, cftab: array<nat>)
    requires cftab.Length == 257 && cftab[0] == 0
    requires forall c :: 0 <= c < 256 ==> cftab[c + 1] == CountEq(last, c)
    modifies cftab
    ensures forall c :: 0 <= c < 257 ==> cftab[c] == CountLess(last, c)
  {
    CountLessZero(last);
    for i := 1 to 257
      invariant forall c :: 0 <= c < i ==> cftab[c] == CountLess(last, c)
      invariant forall c :: i <= c < 257 ==> cftab[c] == CountEq(last, c - 1)
    {
      CountLessNext(last, i - 1);
      cftab[i] := cftab[i] + cftab[i - 1];
    }
  }

  lemma LfFresh(last: seq<byte>, i: nat)
    requires i < |last|
    ensures Lf(last, i) == CountLess(last, last[i]) + CountEq(last[..i], last[i]) < |last|
    ensures forall k :: 0 <= k < i ==> Lf(last, k) != Lf(last, i)
  {
    LfInRange(last, i);
    forall k | 0 <= k < i ensures Lf(last, k) != Lf(last, i) { LfInjective(last, k, i); }
  }

  lemma CountEqNext(last: seq<byte>, i: nat)
    requires i < |last|
    ensures forall c: nat :: CountEq(last[..i + 1], c) == CountEq(last[..i], c) + if last[i] == c then 1 else 0
  {
    assert last[..i + 1][..i] == last[..i];
  }

  /** The first `i` rows have been entered in the cells they are followed by. */
  ghost predicate Entered(tt: seq<nat>, last: seq<byte>, i: nat)
    requires i <= |last|
  {
    |tt| == |last| && forall k :: 0 <= k < i ==> Lf(last, k) < |tt| && tt[Lf(last, k)] == k * 256 + last[k]
  }

  lemma NoneEntered(tt: seq<nat>, last: seq<byte>)
    requires |tt| == |last|
    ensures Entered(tt, last, 0)
  {
  }

  lemma EnterOne(tt: seq<nat>, last: seq<byte>, i: nat)
    requires i < |last| && Entered(tt, last, i) && Lf(last, i) < |last|
    requires forall k :: 0 <= k < i ==> Lf(last, k) != Lf(last, i)
    ensures Entered(tt[Lf(last, i) := i * 256 + last[i]], last, i + 1)
  {
    hide Lf;
  }

  lemma EnteredCells(tt: seq<nat>, last: seq<byte>)
    requires Entered(tt, last, |last|)
    ensures forall j :: 0 <= j < |tt| ==> tt[j] == Cell(last, j)
  {
    hide Lf;
    forall j | 0 <= j < |tt| ensures tt[j] == Cell(last, j) {
      assert tt[Lf(last, Psi(last, j))] == Psi(last, j) * 256 + last[Psi(last, j)];
    }
  }

  /** Build the successor vector from the last column and its byte counts. */
  method Thread(last: seq<byte>, cftab: array<nat>) returns (tt: seq<nat>)
    requires cftab.Length == 257 && cftab[0] == 0
    requires forall c :: 0 <= c < 256 ==> cftab[c + 1] == CountEq(last, c)
    modifies cftab
    ensures |tt| == |last| && forall j :: 0 <= j < |tt| ==> tt[j] == Cell(last, j)
  {
    hide Lf, Cell, Entered, CountLess;
    Accumulate(last, cftab);
    tt := seq(|last|, _ => 0);
    NoneEntered(tt, last);
    for i := 0 to |last|
      invariant |tt| == |last| && Entered(tt, last, i)
      invariant forall c :: 0 <= c < 256 ==> cftab[c] == CountLess(last, c) + CountEq(last[..i], c)
    {
      var b := last[i];
      LfFresh(last, i);
      CountEqNext(last, i);
      EnterOne(tt, last, i);
      tt := tt[cftab[b] := i * 256 + b];
      cftab[b] := cftab[b] + 1;
    }
    assert last[..|last|] == last;
    EnteredCells(tt, last);
  }
}
