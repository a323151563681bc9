/** The decoder's move-to-front list as sixteen 16-byte windows in a 4096-byte arena.

    A short move shifts within the front window; a long move shifts within the symbol's own window
    and hands one boundary byte down through every window in front of it, which then starts one
    cell lower. When the front window reaches cell zero all windows are repacked at the top.
 */
module MtfArena {
  import opened Sequences
  import opened Bits
  import opened MoveToFront

  const CELLS: nat := 4096
  const WIDTH: nat := 16

  /** The 16 list entries window `i` holds. */
  function Part(list: seq<byte>, i: nat): (r: seq<byte>)
    requires |list| == 256 && i < 16
    ensures |r| == 16
  {
    list[16 * i..16 * i + 16]
  }

  lemma MovedAt(list: seq<byte>, nn: nat, k: nat)
    requires |list| == 256 && nn < 256 && k < 256
    ensures ToFront(list, nn)[k] == if k == 0 then list[nn] else if k <= nn then list[k - 1] else list[k]
  {
  }

  /** What window `i` holds after a front move of entry `nn`. */
  lemma PartOfMove(list: seq<byte>, nn: nat, i: nat)
    requires |list| == 256 && nn < 256 && i < 16
    ensures i > nn / 16 ==> Part(ToFront(list, nn), i) == Part(list, i)
    ensures 0 < i < nn / 16 ==> Part(ToFront(list, nn), i) == [Part(list, i - 1)[15]] + Part(list, i)[..15]
    ensures 0 < i == nn / 16 ==>
      Part(ToFront(list, nn), i) == [Part(list, i - 1)[15]] + Part(list, i)[..nn % 16] + Part(list, i)[nn % 16 + 1..]
    ensures i == 0 < nn / 16 ==> Part(ToFront(list, nn), 0) == [list[nn]] + Part(list, 0)[..15]
    ensures i == 0 == nn / 16 ==>
      Part(ToFront(list, nn), 0) == [list[nn]] + Part(list, 0)[..nn] + Part(list, 0)[nn + 1..]
  {
    hide ToFront;
    var a, b := Part(ToFront(list, nn), i), Part(list, i);
    forall j | 0 <= j < 16
      ensures a[j] == var k := 16 * i + j; if k == 0 then list[nn] else if k <= nn then list[k - 1] else list[k]
    {
      MovedAt(list, nn, 16 * i + j);
    }
    if i > nn / 16 {
      assert a == b;
    } else {
      var n := if i < nn / 16 then 15 else nn % 16;
      ShiftedPart(a, b, if i == 0 then list[nn] else Part(list, i - 1)[15], n);
    }
  }

  lemma ShiftedPart(a: seq<byte>, b: seq<byte>, x: byte, n: nat)
    requires |a| == |b| == 16 && n < 16 && a[0] == x
    requires forall j :: 0 < j <= n ==> a[j] == b[j - 1]
    requires forall j :: n < j < 16 ==> a[j] == b[j]
    ensures a == [x] + b[..n] + b[n + 1..] && (n == 15 ==> a == [x] + b[..15])
  {
    if n == 15 { assert a == [x] + b[..15]; }
  }

  /** Sixteen cells from `start` hold `part`. */
  ghost predicate Holds(cells: seq<byte>, start: int, part: seq<byte>) {
    0 <= start && start + 16 <= |cells| && |part| == 16 && cells[start..start + 16] == part
  }

  lemma HoldsElsewhere(cells: seq<byte>, start: int, part: seq<byte>, c: nat, b: byte)
    requires Holds(cells, start, part) && c < |cells| && (c < start || c >= start + 16 || part[c - start] == b)
    ensures Holds(cells[c := b], start, part)
  {
    assert cells[c := b][start..start + 16] == part;
  }

  /** The cells with `part` written from `start` on. */
  function Put(cells: seq<byte>, start: nat, part: seq<byte>): (r: seq<byte>)
    requires start + |part| <= |cells|
    ensures |r| == |cells|
  {
    cells[..start] + part + cells[start + |part|..]
  }

  lemma PutHolds(cells: seq<byte>, start: nat, part: seq<byte>)
    requires start + 16 <= |cells| && |part| == 16
    ensures Holds(Put(cells, start, part), start, part)
  {
  }

  lemma PutElsewhere(cells: seq<byte>, start: nat, part: seq<byte>, at: int, held: seq<byte>)
    requires start + |part| <= |cells| && Holds(cells, at, held) && (at + 16 <= start || start + |part| <= at)
    ensures Holds(Put(cells, start, part), at, held)
  {
    assert Put(cells, start, part)[at..at + 16] == held;
  }

  /** `copy_within(pp..pp + n, pp + 1)`. */
  method ShiftUp(a: array<byte>, pp: nat, n: nat)
    requires pp + n < a.Length
    modifies a
    ensures a[..] == Put(old(a[..]), pp + 1, old(a[pp..pp + n]))
  {
    ghost var before := a[..];
    var k := n;
    while k > 0
      invariant 0 <= k <= n
      invariant forall c :: 0 <= c < a.Length && !(pp + k < c <= pp + n) ==> a[c] == before[c]
      invariant forall c :: pp + k < c <= pp + n ==> a[c] == before[c - 1]
    {
      a[pp + k] := a[pp + k - 1];
      k := k - 1;
    }
    ghost var after := Put(before, pp + 1, before[pp..pp + n]);
    forall c | 0 <= c < a.Length ensures a[c] == after[c] {
      if pp < c <= pp + n { assert after[c] == before[pp..pp + n][c - pp - 1]; }
    }
  }

  /** Move one window up to `start`, last cell first, so that no cell is overwritten before it is read. */
  method MoveWindow(a: array<byte>, from: nat, start: nat)
    requires from <= start && start + 16 <= a.Length
    modifies a
    ensures a[..] == Put(old(a[..]), start, old(a[from..from + 16]))
  {
    ghost var before := a[..];
    var jj := WIDTH;
    while jj > 0
      invariant 0 <= jj <= 16
      invariant forall c :: 0 <= c < a.Length && !(start + jj <= c < start + 16) ==> a[c] == before[c]
      invariant forall c :: start + jj <= c < start + 16 ==> a[c] == before[c - start + from]
    {
      jj := jj - 1;
      a[start + jj] := a[from + jj];
    }
    ghost var after := Put(before, start, before[from..from + 16]);
    forall c | 0 <= c < a.Length ensures a[c] == after[c] {
      if start <= c < start + 16 { assert after[c] == before[from..from + 16][c - start]; }
    }
  }

  /** Fill window `ii` of a fresh arena. */
  method FillWindow(a: array<byte>, inUse: seq<byte>, ii: nat, start: nat)
    requires ii < 16 && start + 16 <= a.Length && |inUse| <= 256
    modifies a
    ensures a[..] == Put(old(a[..]), start, Part(Padded(inUse), ii))
  {
    ghost var before, list := a[..], Padded(inUse);
    var jj := WIDTH;
    while jj > 0
      invariant 0 <= jj <= 16
      invariant forall c :: 0 <= c < a.Length ==>
        a[c] == if start + jj <= c < start + 16 then list[16 * ii + (c - start)] else before[c]
    {
      jj := jj - 1;
      var pos := ii * WIDTH + jj;
      a[start + jj] := if pos < |inUse| then inUse[pos] else 0;
    }
  }

  /** Windows of 16 cells, ascending and disjoint. */
  ghost predicate Spread(base: seq<nat>) {
    |base| == 16 && base[15] + 16 <= CELLS && forall i :: 0 <= i < 15 ==> base[i] + 16 <= base[i + 1]
  }

  lemma {:induction false} SpreadApart(base: seq<nat>, i: nat, j: nat)
    requires Spread(base) && i < j < 16
    ensures base[i] + 16 * (j - i) <= base[j]
    decreases j - i
  {
    if i + 1 < j { SpreadApart(base, i, j - 1); assert base[j - 1] + 16 <= base[j]; }
  }

  lemma SpreadTop(base: seq<nat>, i: nat)
    requires Spread(base) && i < 16
    ensures 16 * i <= base[i] && base[i] + 16 * (16 - i) <= CELLS
  {
    if i > 0 { SpreadApart(base, 0, i); }
    if i < 15 { SpreadApart(base, i, 15); }
  }

  class Arena {
    const cells: array<byte>
    const base: array<nat>

    /** Every window holds its part of the list. */
    ghost predicate Shows(list: seq<byte>)
      reads cells, base
    {
      && cells.Length == CELLS && base.Length == 16 && Spread(base[..]) && |list| == 256
      && forall i :: 0 <= i < 16 ==> Holds(cells[..], base[i], Part(list, i))
    }

    /** Between moves the front window has room below it. */
    ghost predicate Valid(list: seq<byte>)
      reads this, cells, base
    {
      cells != base as object && Shows(list) && base[0] > 0
    }

    /** The list the bytes in use start as, zero past them. */
    constructor (inUse: seq<byte>)
      requires |inUse| <= 256
      ensures Valid(Padded(inUse)) && fresh(cells) && fresh(base)
    {
      cells := new byte[CELLS](_ => 0);
      base := new nat[16](_ => 0);
      new;
      ghost var list := Padded(inUse);
      var kk: nat, ii: nat := CELLS, 16;
      while ii > 0
        invariant 0 <= ii <= 16 && kk == 3840 + 16 * ii
        invariant forall i :: ii <= i < 16 ==> Packed(cells[..], base[..], list, i)
      {
        ii := ii - 1;
        kk := kk - WIDTH;
        ghost var cells0, base0 := cells[..], base[..];
        FillWindow(cells, inUse, ii, kk);
        base[ii] := kk;
        assert base[..] == base0[ii := kk];
        forall i | ii <= i < 16 ensures Packed(cells[..], base[..], list, i) {
          PackOne(cells0, base0, list, ii, i);
        }
      }
      AllPacked(cells[..], base[..], list);
    }

    /** Front move within the front window. */
    method ShortMove(nn: nat, ghost list: seq<byte>) returns (b: byte)
      requires Valid(list) && nn < WIDTH
      modifies cells
      ensures b == list[nn] && Valid(ToFront(list, nn))
    {
      var pp := base[0];
      ghost var before := cells[..];
      assert Holds(before, pp, Part(list, 0));
      b := cells[pp + nn];
      assert b == before[pp..pp + 16][nn];
      ShiftUp(cells, pp, nn);
      cells[pp] := b;
      ghost var part := [b] + Part(list, 0)[..nn] + Part(list, 0)[nn + 1..];
      FrontShifted(before, pp, Part(list, 0), nn);
      assert cells[..] == Put(before, pp, part);
      ShortMoved(before, base[..], list, nn, pp, part);
    }

    /** Take entry `off` out of window `lno`, whose start moves up by one. */
    method ShiftOwn(lno: nat, off: nat, ghost list: seq<byte>) returns (b: byte)
      requires Valid(list) && 0 < lno < 16 && off < 16
      modifies cells, base
      ensures cells.Length == CELLS && base.Length == 16
      ensures b == list[16 * lno + off] && base[..] == old(base[..])[lno := old(base[lno]) + 1]
      ensures CascadingAll(cells[..], base[..], old(base[..]), list, 16 * lno + off, lno)
    {
      hide Put, ToFront, WindowAt;
      ghost var before, starts, nn := cells[..], base[..], 16 * lno + off;
      var pp := base[lno];
      assert Holds(before, pp, Part(list, lno));
      b := cells[pp + off];
      assert b == before[pp..pp + 16][off];
      ShiftUp(cells, pp, off);
      base[lno] := base[lno] + 1;
      assert base[..] == starts[lno := starts[lno] + 1];
      assert cells[..] == Put(before, starts[lno] + 1, before[pp..pp + off]);
      forall i | 0 <= i < 16 ensures WindowAt(cells[..], base[..], starts, list, nn, lno, i) {
        OwnShifted(before, starts, list, lno, off, i);
      }
    }

    /** Window by window, from `last` forward, the last byte in front goes to the place freed behind it. */
    method Cascade(last: nat, ghost nn: nat, ghost starts: seq<nat>, ghost list: seq<byte>)
      requires cells != base as object && cells.Length == CELLS && base.Length == 16
      requires CascadingAll(cells[..], base[..], starts, list, nn, last)
      modifies cells, base
      ensures CascadingAll(cells[..], base[..], starts, list, nn, 0)
    {
      hide ToFront, Part, WindowAt, Spread;
      var lno := last;
      while lno > 0
        invariant 0 <= lno <= last && CascadingAll(cells[..], base[..], starts, list, nn, lno)
      {
        ghost var cells0, base0 := cells[..], base[..];
        CascadeAll(cells0, base0, starts, list, nn, lno);
        base[lno] := base[lno] - 1;
        cells[base[lno]] := cells[base[lno - 1] + WIDTH - 1];
        assert base[..] == base0[lno := base0[lno] - 1];
        assert cells[..] == cells0[base0[lno] - 1 := cells0[base0[lno - 1] + 15]];
        lno := lno - 1;
      }
    }

    /** Front move from behind the front window. */
    method LongMove(nn: nat, ghost list: seq<byte>) returns (b: byte)
      requires Valid(list) && WIDTH <= nn < 256
      modifies cells, base
      ensures b == list[nn] && Valid(ToFront(list, nn))
    {
      hide ToFront, Part, WindowAt;
      var lno, off := nn / WIDTH, nn % WIDTH;
      ghost var starts := base[..];
      b := ShiftOwn(lno, off, list);
      Cascade(lno, nn, starts, list);
      ghost var cells0, base0 := cells[..], base[..];
      Cascaded(cells0, base0, starts, list, nn, b);
      base[0] := base[0] - 1;
      cells[base[0]] := b;
      assert base[..] == base0[0 := base0[0] - 1];
      assert cells[..] == cells0[base0[0] - 1 := b];
      if base[0] == 0 {
        Repack(ToFront(list, nn));
      }
    }

    /** Move every window back to the top of the arena. */
    method Repack(ghost list: seq<byte>)
      requires cells != base as object && Shows(list)
      modifies cells, base
      ensures Valid(list)
    {
      hide Part, Put;
      ghost var starts := base[..];
      var kk: nat, ii: nat := CELLS, 16;
      while ii > 0
        invariant 0 <= ii <= 16 && kk == 3840 + 16 * ii
        invariant forall i :: 0 <= i < ii ==> base[i] == starts[i] && Holds(cells[..], starts[i], Part(list, i))
        invariant forall i :: ii <= i < 16 ==> Packed(cells[..], base[..], list, i)
      {
        ii := ii - 1;
        kk := kk - WIDTH;
        ghost var cells0, base0 := cells[..], base[..];
        assert Holds(cells0, starts[ii], Part(list, ii));
        SpreadTop(starts, ii);
        MoveWindow(cells, base[ii], kk);
        base[ii] := kk;
        assert base[..] == base0[ii := kk];
        assert cells[..] == Put(cells0, kk, Part(list, ii));
        forall i | 0 <= i < ii ensures Holds(cells[..], starts[i], Part(list, i)) {
          SpreadApart(starts, i, ii);
          PutElsewhere(cells0, kk, Part(list, ii), starts[i], Part(list, i));
        }
        forall i | ii <= i < 16 ensures Packed(cells[..], base[..], list, i) {
          PackOne(cells0, base0, list, ii, i);
        }
      }
      AllPacked(cells[..], base[..], list);
    }

    /** The byte at the front. */
    method First(ghost list: seq<byte>) returns (b: byte)
      requires Valid(list)
      ensures b == list[0]
    {
      assert Holds(cells[..], base[0], Part(list, 0));
      assert cells[base[0]] == cells[..][base[0]..base[0] + 16][0];
      b := cells[base[0]];
    }

    /** Front move of entry `nn`. */
    method Front(nn: nat, ghost list: seq<byte>) returns (b: byte)
      requires Valid(list) && nn < 256
      modifies cells, base
      ensures b == list[nn] && Valid(ToFront(list, nn))
    {
      if nn < WIDTH {
        b := ShortMove(nn, list);
      } else {
        b := LongMove(nn, list);
      }
    }
  }

  // ----- packing the windows at the top -----

  /** Window `i` stands at its place at the top of the arena. */
  ghost predicate Packed(cells: seq<byte>, base: seq<nat>, list: seq<byte>, i: nat)
    requires |cells| == CELLS && |base| == 16 && |list| == 256 && i < 16
  {
    base[i] == 3840 + 16 * i && Holds(cells, 3840 + 16 * i, Part(list, i))
  }

  lemma PackOne(cells: seq<byte>, base: seq<nat>, list: seq<byte>, ii: nat, i: nat)
    requires |cells| == CELLS && |base| == 16 && |list| == 256 && ii <= i < 16
    requires i > ii ==> Packed(cells, base, list, i)
    ensures Packed(Put(cells, 3840 + 16 * ii, Part(list, ii)), base[ii := 3840 + 16 * ii], list, i)
  {
    var kk := 3840 + 16 * ii;
    if i == ii {
      PutHolds(cells, kk, Part(list, ii));
    } else {
      PutElsewhere(cells, kk, Part(list, ii), 3840 + 16 * i, Part(list, i));
    }
  }

  lemma AllPacked(cells: seq<byte>, base: seq<nat>, list: seq<byte>)
    requires |cells| == CELLS && |base| == 16 && |list| == 256
    requires forall i :: 0 <= i < 16 ==> Packed(cells, base, list, i)
    ensures Spread(base) && base[0] > 0 && forall i :: 0 <= i < 16 ==> Holds(cells, base[i], Part(list, i))
  {
    forall i | 0 <= i < 16 ensures base[i] == 3840 + 16 * i && Holds(cells, base[i], Part(list, i)) {
      assert Packed(cells, base, list, i);
    }
  }

  // ----- the cascade of a long move, in window `last` = nn / 16 and those in front of it -----

  ghost function NewStart(starts: seq<nat>, last: nat, i: nat): int
    requires i < |starts|
  {
    starts[i] as int - if i < last then 1 else 0
  }

  /** The 15 entries of window `i` that stay in it. */
  function Short(list: seq<byte>, nn: nat, i: nat): (r: seq<byte>)
    requires |list| == 256 && i <= nn / 16 < 16
    ensures |r| == 15
  {
    if i < nn / 16 then Part(list, i)[..15] else Part(list, i)[..nn % 16] + Part(list, i)[nn % 16 + 1..]
  }

  lemma PartIsShort(list: seq<byte>, nn: nat, i: nat)
    requires |list| == 256 && i <= nn / 16 && 16 <= nn < 256
    ensures Part(ToFront(list, nn), i) == [if i == 0 then list[nn] else Part(list, i - 1)[15]] + Short(list, nn, i)
  {
    PartOfMove(list, nn, i);
    if i > 0 && i == nn / 16 {
      var x := [Part(list, i - 1)[15]];
      assert x + Part(list, i)[..nn % 16] + Part(list, i)[nn % 16 + 1..] == x + Short(list, nn, i);
    }
  }

  /** Window `i` when the cascade is about to hand a byte to window `m`: windows in front of `m` are untouched,
      window `m` lacks its first entry, windows behind it are final. */
  ghost predicate WindowAt(cells: seq<byte>, base: seq<nat>, starts: seq<nat>, list: seq<byte>, nn: nat, m: nat, i: nat)
    requires |cells| == CELLS && |base| == |starts| == 16 && |list| == 256 && m <= nn / 16 < 16 && i < 16
  {
    var start := NewStart(starts, nn / 16, i);
    if i < m then base[i] == starts[i] && Holds(cells, starts[i], Part(list, i))
    else if i == m then
      base[i] == start + 1 && 0 <= start && start + 16 <= CELLS && cells[start + 1..start + 16] == Short(list, nn, i)
    else base[i] == start && Holds(cells, start, Part(ToFront(list, nn), i))
  }

  ghost predicate CascadingAll(cells: seq<byte>, base: seq<nat>, starts: seq<nat>, list: seq<byte>, nn: nat, m: nat) {
    && |cells| == CELLS && |base| == |starts| == 16 && |list| == 256 && m <= nn / 16 && 16 <= nn < 256
    && Spread(starts) && starts[0] > 0
    && forall i :: 0 <= i < 16 ==> WindowAt(cells, base, starts, list, nn, m, i)
  }

  lemma OwnPart(cells: seq<byte>, pp: nat, off: nat, part: seq<byte>)
    requires pp + 16 <= |cells| && off < 16 && |part| == 16
    requires part[..off] == cells[pp..pp + off] && part[off + 1..] == cells[pp + off + 1..pp + 16]
    ensures Put(cells, pp + 1, cells[pp..pp + off])[pp + 1..pp + 16] == part[..off] + part[off + 1..]
  {
  }

  lemma OwnShifted(cells: seq<byte>, base: seq<nat>, list: seq<byte>, lno: nat, off: nat, i: nat)
    requires |cells| == CELLS && Spread(base) && |list| == 256 && 0 < lno < 16 && off < 16 && i < 16
    requires forall i :: 0 <= i < 16 ==> Holds(cells, base[i], Part(list, i))
    requires base[lno] + 1 + off <= CELLS
    ensures WindowAt(Put(cells, base[lno] + 1, cells[base[lno]..base[lno] + off]), base[lno := base[lno] + 1], base,
                     list, 16 * lno + off, lno, i)
  {
    hide ToFront, Part, Put;
    var pp, nn := base[lno], 16 * lno + off;
    assert nn / 16 == lno && nn % 16 == off;
    var moved := cells[pp..pp + off];
    assert Holds(cells, pp, Part(list, lno)) && Holds(cells, base[i], Part(list, i));
    PartOfMove(list, nn, i);
    if i == lno {
      assert Put(cells, pp + 1, moved)[pp + 1..pp + 16] == Short(list, nn, i) by {
        PartsOfSlice(cells, pp, pp + 16, off);
        PartsOfSlice(cells, pp, pp + 16, off + 1);
        OwnPart(cells, pp, off, Part(list, lno));
      }
    } else {
      if i < lno { SpreadApart(base, i, lno); } else { SpreadApart(base, lno, i); }
      PutElsewhere(cells, pp + 1, moved, base[i], Part(list, i));
    }
  }

  lemma Prepend(cells: seq<byte>, start: nat, x: byte, tail: seq<byte>)
    requires start + 16 <= |cells| && |tail| == 15 && cells[start + 1..start + 16] == tail
    ensures Holds(cells[start := x], start, [x] + tail)
  {
    assert cells[start := x][start..start + 16] == [x] + cells[start + 1..start + 16];
  }

  lemma Beside(cells: seq<byte>, c: nat, x: byte, a: nat, b: nat)
    requires a <= b <= |cells| && c < |cells| && (c < a || b <= c)
    ensures cells[c := x][a..b] == cells[a..b]
  {
  }

  lemma CascadeStep(cells: seq<byte>, base: seq<nat>, starts: seq<nat>, list: seq<byte>, nn: nat, m: nat, i: nat,
                    c: nat, x: byte)
    requires CascadingAll(cells, base, starts, list, nn, m) && m > 0 && i < 16
    requires c == NewStart(starts, nn / 16, m) && c < CELLS && x == Part(list, m - 1)[15]
    ensures WindowAt(cells[c := x], base[m := c], starts, list, nn, m - 1, i)
  {
    hide ToFront, Part;
    var last := nn / 16;
    assert WindowAt(cells, base, starts, list, nn, m, i);
    SpreadApart(starts, m - 1, m);
    if i == m {
      PartIsShort(list, nn, i);
      Prepend(cells, c, x, Short(list, nn, i));
    } else if i == m - 1 {
      var start: int := starts[i] as int - 1;
      if i > 0 { SpreadApart(starts, 0, i); }
      PartsOfSlice(cells, starts[i], starts[i] + 16, 15);
      Beside(cells, c, x, start + 1, start + 16);
    } else if i < m {
      SpreadApart(starts, i, m - 1);
      HoldsElsewhere(cells, starts[i], Part(list, i), c, x);
    } else {
      SpreadApart(starts, m, i);
      HoldsElsewhere(cells, NewStart(starts, last, i), Part(ToFront(list, nn), i), c, x);
    }
  }

  lemma CascadeAll(cells: seq<byte>, base: seq<nat>, starts: seq<nat>, list: seq<byte>, nn: nat, m: nat)
    requires CascadingAll(cells, base, starts, list, nn, m) && m > 0
    ensures 0 < base[m] && base[m] - 1 < CELLS && base[m - 1] + 16 <= CELLS
    ensures CascadingAll(cells[base[m] - 1 := cells[base[m - 1] + 15]], base[m := base[m] - 1], starts, list, nn, m - 1)
  {
    var c := NewStart(starts, nn / 16, m);
    assert WindowAt(cells, base, starts, list, nn, m, m) && WindowAt(cells, base, starts, list, nn, m, m - 1);
    var x := cells[base[m - 1] + 15];
    assert x == cells[starts[m - 1]..starts[m - 1] + 16][15];
    var cells', base', m' := cells[c := x], base[m := c], m - 1;
    forall i | 0 <= i < 16 ensures WindowAt(cells', base', starts, list, nn, m', i) {
      CascadeStep(cells, base, starts, list, nn, m, i, c, x);
    }
  }

  /** The last byte goes to the front window; every window is then final. */
  lemma Cascaded(cells: seq<byte>, base: seq<nat>, starts: seq<nat>, list: seq<byte>, nn: nat, b: byte)
    requires CascadingAll(cells, base, starts, list, nn, 0) && b == list[nn]
    ensures 0 < base[0] && base[0] - 1 < CELLS
    ensures var cells', base' := cells[base[0] - 1 := b], base[0 := base[0] - 1];
      Spread(base') && forall i :: 0 <= i < 16 ==> Holds(cells', base'[i], Part(ToFront(list, nn), i))
  {
    var last, c := nn / 16, starts[0] - 1;
    assert WindowAt(cells, base, starts, list, nn, 0, 0);
    var cells', base' := cells[c := b], base[0 := c];
    forall i | 0 <= i < 16
      ensures base'[i] == NewStart(starts, last, i) && Holds(cells', base'[i], Part(ToFront(list, nn), i))
    {
      assert WindowAt(cells, base, starts, list, nn, 0, i);
      if i == 0 {
        PartIsShort(list, nn, 0);
        Prepend(cells, c, b, Short(list, nn, 0));
      } else {
        SpreadApart(starts, 0, i);
        HoldsElsewhere(cells, base[i], Part(ToFront(list, nn), i), c, b);
      }
    }
  }

  lemma FrontShifted(cells: seq<byte>, pp: nat, part: seq<byte>, nn: nat)
    requires Holds(cells, pp, part) && nn < 16
    ensures Put(cells, pp + 1, cells[pp..pp + nn])[pp := part[nn]]
      == Put(cells, pp, [part[nn]] + part[..nn] + part[nn + 1..])
  {
    assert forall k :: 0 <= k < 16 ==> part[k] == cells[pp + k];
  }

  lemma ShortMoved(cells: seq<byte>, base: seq<nat>, list: seq<byte>, nn: nat, pp: nat, part: seq<byte>)
    requires |cells| == CELLS && Spread(base) && |list| == 256 && nn < 16 && pp == base[0]
    requires forall i :: 0 <= i < 16 ==> Holds(cells, base[i], Part(list, i))
    requires pp + 16 <= CELLS && |part| == 16
    requires part == [list[nn]] + Part(list, 0)[..nn] + Part(list, 0)[nn + 1..]
    ensures forall i :: 0 <= i < 16 ==> Holds(Put(cells, pp, part), base[i], Part(ToFront(list, nn), i))
  {
    forall i | 0 <= i < 16 ensures Holds(Put(cells, pp, part), base[i], Part(ToFront(list, nn), i)) {
      PartOfMove(list, nn, i);
      if i == 0 {
        PutHolds(cells, pp, part);
      } else {
        SpreadApart(base, 0, i);
        PutElsewhere(cells, pp, part, base[i], Part(list, i));
      }
    }
  }
}
