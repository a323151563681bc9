/** RLE1: runs of four to 259 equal bytes become four bytes and a count.

    A group is a run of one byte value. The decoder forgets its run after a count byte, so a block
    may end after any group but never inside one.
 */
module RunLength {
  import opened Bits
  import opened Results
  import opened MoveToFront

  const MAX_RUN: nat := 259

  datatype Group = Group(b: byte, rawLen: nat)

  predicate Legal(g: Group) {
    1 <= g.rawLen <= MAX_RUN
  }

  /** The plaintext a group stands for. */
  function Raw(g: Group): seq<byte> {
    Repeat(g.b, g.rawLen)
  }

  function EncodedLen(g: Group): nat {
    if g.rawLen >= 4 then 5 else g.rawLen
  }

  /** The group's encoded form. */
  function Coded(g: Group): (s: seq<byte>)
    requires Legal(g)
    ensures |s| == EncodedLen(g)
  {
    if g.rawLen >= 4 then Repeat(g.b, 4) + [g.rawLen - 4] else Repeat(g.b, g.rawLen)
  }

  method WriteInto(g: Group, out0: seq<byte>) returns (out: seq<byte>)
    requires Legal(g)
    ensures out == out0 + Coded(g)
  {
    if g.rawLen >= 4 {
      assert Repeat(g.b, 4) == [g.b, g.b, g.b, g.b];
      out := out0 + [g.b, g.b, g.b, g.b];
      out := out + [g.rawLen - 4];
      assert out == out0 + Coded(g);
    } else {
      out := out0;
      var i := 0;
      while i < g.rawLen
        invariant 0 <= i <= g.rawLen && out == out0 + Repeat(g.b, i)
      {
        assert Repeat(g.b, i + 1) == Repeat(g.b, i) + [g.b];
        out := out + [g.b];
        i := i + 1;
      }
    }
  }

  function RawAll(gs: seq<Group>): seq<byte> {
    if gs == [] then [] else RawAll(gs[..|gs| - 1]) + Raw(gs[|gs| - 1])
  }

  function CodedAll(gs: seq<Group>): seq<byte>
    requires forall i :: 0 <= i < |gs| ==> Legal(gs[i])
  {
    if gs == [] then [] else CodedAll(gs[..|gs| - 1]) + Coded(gs[|gs| - 1])
  }

  // ----- the decoder's automaton -----

  /** `prev` is -1 before the first byte and after a count byte. */
  datatype Run = Run(prev: int, count: nat)

  const START: Run := Run(-1, 0)

  predicate Possible(r: Run) {
    -1 <= r.prev < 256 && r.count <= 4 && (r.count == 0 <==> r.prev == -1)
  }

  function Next(r: Run, b: byte): (r': Run)
    requires Possible(r)
    ensures Possible(r')
  {
    if r.count == 4 then START else if b == r.prev then Run(r.prev, r.count + 1) else Run(b, 1)
  }

  /** What one byte of the block appends to the plaintext. */
  function Emits(r: Run, b: byte): seq<byte>
    requires Possible(r)
  {
    if r.count == 4 then Repeat(r.prev, b) else [b]
  }

  function Expand(r: Run, s: seq<byte>): seq<byte>
    requires Possible(r)
    decreases |s|
  {
    if s == [] then [] else Emits(r, s[0]) + Expand(Next(r, s[0]), s[1..])
  }

  function After(r: Run, s: seq<byte>): (r': Run)
    requires Possible(r)
    ensures Possible(r')
    decreases |s|
  {
    if s == [] then r else After(Next(r, s[0]), s[1..])
  }

  lemma {:induction false} ExpandAppend(r: Run, a: seq<byte>, b: seq<byte>)
    requires Possible(r)
    ensures Expand(r, a + b) == Expand(r, a) + Expand(After(r, a), b)
    ensures After(r, a + b) == After(After(r, a), b)
    decreases |a|
  {
    if a == [] {
      assert a + b == b;
    } else {
      ExpandAppend(Next(r, a[0]), a[1..], b);
      assert (a + b)[1..] == a[1..] + b;
    }
  }

  // ----- decoding groups -----

  lemma {:induction false} ExpandSame(b: byte, k: nat, n: nat)
    requires 1 <= k && k + n <= 4
    ensures Expand(Run(b, k), Repeat(b, n)) == Repeat(b, n) && After(Run(b, k), Repeat(b, n)) == Run(b, k + n)
    decreases n
  {
    if n > 0 {
      ExpandSame(b, k + 1, n - 1);
      assert Repeat(b, n)[1..] == Repeat(b, n - 1);
      assert Repeat(b, n) == [b] + Repeat(b, n - 1);
    }
  }

  lemma ExpandRun(r: Run, b: byte, n: nat)
    requires Possible(r) && r.count < 4 && b != r.prev && 1 <= n <= 4
    ensures Expand(r, Repeat(b, n)) == Repeat(b, n) && After(r, Repeat(b, n)) == Run(b, n)
  {
    ExpandSame(b, 1, n - 1);
    assert Repeat(b, n)[1..] == Repeat(b, n - 1);
    assert Repeat(b, n) == [b] + Repeat(b, n - 1);
  }

  /** A group decodes to its run wherever the byte before it is a different one, or forgotten. */
  lemma GroupExpands(r: Run, g: Group)
    requires Possible(r) && r.count < 4 && g.b != r.prev && Legal(g)
    ensures Expand(r, Coded(g)) == Raw(g)
    ensures After(r, Coded(g)) == if g.rawLen >= 4 then START else Run(g.b, g.rawLen)
  {
    if g.rawLen >= 4 {
      ExpandRun(r, g.b, 4);
      ExpandAppend(r, Repeat(g.b, 4), [g.rawLen - 4]);
      var x: byte := g.rawLen - 4;
      assert [x][1..] == [];
      assert Expand(START, []) == [];
      assert Expand(Run(g.b, 4), [x]) == Repeat(g.b, x) + [];
      assert Raw(g) == Repeat(g.b, 4) + Repeat(g.b, x);
    } else {
      ExpandRun(r, g.b, g.rawLen);
    }
  }

  /** Neighbouring groups differ in their byte unless the first one ends in a count. */
  ghost predicate Separated(gs: seq<Group>) {
    forall i :: 0 <= i < |gs| ==> Apart(gs, i)
  }

  ghost predicate Apart(gs: seq<Group>, i: nat)
    requires i < |gs|
  {
    Legal(gs[i]) && (i > 0 && gs[i - 1].b == gs[i].b ==> gs[i - 1].rawLen >= 4)
  }

  lemma SeparatedPrefix(gs: seq<Group>, k: nat)
    requires Separated(gs) && k <= |gs|
    ensures Separated(gs[..k])
  {
    forall i | 0 <= i < k ensures Apart(gs[..k], i) { assert Apart(gs, i); }
  }

  function LastRun(gs: seq<Group>): Run {
    if gs == [] || gs[|gs| - 1].rawLen >= 4 then START else Run(gs[|gs| - 1].b, gs[|gs| - 1].rawLen)
  }

  lemma {:induction false} GroupsExpand(gs: seq<Group>)
    requires Separated(gs)
    ensures forall i :: 0 <= i < |gs| ==> Legal(gs[i])
    ensures Expand(START, CodedAll(gs)) == RawAll(gs)
    ensures After(START, CodedAll(gs)) == LastRun(gs)
  {
    forall i | 0 <= i < |gs| ensures Legal(gs[i]) { assert Apart(gs, i); }
    if gs != [] {
      var k := |gs| - 1;
      SeparatedPrefix(gs, k);
      GroupsExpand(gs[..k]);
      assert Apart(gs, k);
      ExpandAppend(START, CodedAll(gs[..k]), Coded(gs[k]));
      GroupExpands(LastRun(gs[..k]), gs[k]);
    }
  }

  // ----- the decoder never expands a block by more than 259/5 -----

  /** Four cells buy one count byte: 5 * out + 254 * count grows by at most 259 a step. */
  lemma {:induction false} ExpandPotential(r: Run, s: seq<byte>)
    requires Possible(r)
    ensures 5 * |Expand(r, s)| + 254 * After(r, s).count <= 259 * |s| + 254 * r.count
    decreases |s|
  {
    if s != [] { ExpandPotential(Next(r, s[0]), s[1..]); }
  }

  lemma ExpandBound(s: seq<byte>)
    ensures 5 * |Expand(START, s)| <= 259 * |s|
  {
    ExpandPotential(START, s);
  }

  /** Cell by cell: five cells can hold one count byte, which is worth at most 255 bytes. */
  lemma {:induction false} ExpandCells(r: Run, s: seq<byte>)
    requires Possible(r)
    ensures |Expand(r, s)| <= |s| + 254 * ((r.count + |s|) / 5)
    decreases |s|
  {
    if s != [] { ExpandCells(Next(r, s[0]), s[1..]); }
  }

  /** A block that expands as far as `n` cells can: groups of four bytes and the largest count. */
  function Widest(n: nat): (s: seq<byte>)
    ensures |s| == n
  {
    if n >= 5 then Coded(Group(7, MAX_RUN)) + Widest(n - 5) else Repeat(7, n)
  }

  lemma {:induction false} WidestExpands(n: nat)
    ensures |Expand(START, Widest(n))| == n + 254 * (n / 5)
  {
    hide Expand, After, Coded, Repeat;
    if n >= 5 {
      WidestGroup(MAX_RUN);
      ExpandAppend(START, Coded(Group(7, MAX_RUN)), Widest(n - 5));
      WidestExpands(n - 5);
    } else if n > 0 {
      ExpandRun(START, 7, n);
    } else {
      ExpandNone();
    }
  }

  lemma WidestGroup(n: nat)
    requires n == MAX_RUN
    ensures |Expand(START, Coded(Group(7, n)))| == n && After(START, Coded(Group(7, n))) == START
  {
    hide Expand, After, Coded;
    GroupExpands(START, Group(7, n));
  }

  lemma ExpandNone()
    ensures Expand(START, []) == []
  {
  }

  /** The most that `n` cells can expand to, exactly: no block gives more, and one gives as much. */
  lemma ExpandMost(n: nat)
    ensures forall s: seq<byte> :: |s| == n ==> |Expand(START, s)| <= n + 254 * (n / 5)
    ensures exists s: seq<byte> :: |s| == n && |Expand(START, s)| == n + 254 * (n / 5)
    ensures n % 5 == 0 ==> 5 * (n + 254 * (n / 5)) == 259 * n
  {
    forall s: seq<byte> | |s| == n ensures |Expand(START, s)| <= n + 254 * (n / 5) { ExpandCells(START, s); }
    WidestExpands(n);
  }

  // ----- splitting plaintext into groups -----

  datatype Split = Split(closed: seq<Group>, open: Option<Group>)

  /** Groups closed by `data`, and the one still open. */
  function Feed(open: Option<Group>, data: seq<byte>): Split
    requires open.Some? ==> Legal(open.value)
    decreases |data|
  {
    if data == [] then Split([], open)
    else
      var b := data[0];
      if open.Some? && b == open.value.b && open.value.rawLen < MAX_RUN then
        Feed(Some(Group(b, open.value.rawLen + 1)), data[1..])
      else
        var rest := Feed(Some(Group(b, 1)), data[1..]);
        Split((if open.Some? then [open.value] else []) + rest.closed, rest.open)
  }

  function AsGroups(open: Option<Group>): seq<Group> {
    if open.Some? then [open.value] else []
  }

  /** All the groups of a plaintext. */
  function Groups(data: seq<byte>): seq<Group> {
    var s := Feed(None, data);
    s.closed + AsGroups(s.open)
  }

  lemma {:induction false} FeedAppend(open: Option<Group>, a: seq<byte>, b: seq<byte>)
    requires open.Some? ==> Legal(open.value)
    ensures var s := Feed(open, a); s.open.Some? ==> Legal(s.open.value)
    ensures var s := Feed(open, a); var t := Feed(s.open, b);
      Feed(open, a + b) == Split(s.closed + t.closed, t.open)
    decreases |a|
  {
    if a == [] {
      assert a + b == b;
      assert [] + Feed(open, b).closed == Feed(open, b).closed;
    } else {
      assert (a + b)[1..] == a[1..] + b;
      if open.Some? && a[0] == open.value.b && open.value.rawLen < MAX_RUN {
        FeedAppend(Some(Group(a[0], open.value.rawLen + 1)), a[1..], b);
      } else {
        FeedAppend(Some(Group(a[0], 1)), a[1..], b);
        var s := Feed(Some(Group(a[0], 1)), a[1..]);
        assert AsGroups(open) + s.closed + Feed(s.open, b).closed
          == AsGroups(open) + (s.closed + Feed(s.open, b).closed);
      }
    }
  }

  lemma {:induction false} RawAppend(a: seq<Group>, b: seq<Group>)
    ensures RawAll(a + b) == RawAll(a) + RawAll(b)
    decreases |b|
  {
    if b == [] {
      assert a + b == a;
    } else {
      assert (a + b)[..|a + b| - 1] == a + b[..|b| - 1];
      RawAppend(a, b[..|b| - 1]);
    }
  }

  lemma RawOne(g: Group)
    ensures RawAll([g]) == Raw(g)
  {
    assert [g][..0] == [];
  }

  lemma RawSingle(b: byte)
    ensures Raw(Group(b, 1)) == [b] && RawAll([]) == []
  {
    assert Repeat(b, 1) == [b];
  }

  lemma RawMore(g: Group)
    ensures RawAll([Group(g.b, g.rawLen + 1)]) == RawAll([g]) + [g.b]
  {
    RawOne(Group(g.b, g.rawLen + 1));
    RawOne(g);
    assert Repeat(g.b, g.rawLen + 1) == Repeat(g.b, g.rawLen) + [g.b];
  }

  /** The groups of `data` started with `open` pending: they spell out its run and `data`, and are separated. */
  lemma {:induction false} FeedGroups(open: Option<Group>, data: seq<byte>)
    requires open.Some? ==> Legal(open.value)
    ensures var s := Feed(open, data); var gs := s.closed + AsGroups(s.open);
      && RawAll(gs) == RawAll(AsGroups(open)) + data
      && Separated(gs) && (gs == [] <==> open.None? && data == [])
      && (open.Some? ==> gs[0].b == open.value.b)
    decreases |data|
  {
    hide Raw, RawAll;
    if data == [] {
      assert [] + AsGroups(open) == AsGroups(open);
      if open.Some? { assert Apart([open.value], 0); }
    } else {
      var b := data[0];
      assert data == [b] + data[1..];
      if open.Some? && b == open.value.b && open.value.rawLen < MAX_RUN {
        var more := Group(b, open.value.rawLen + 1);
        FeedGroups(Some(more), data[1..]);
        RawMore(open.value);
        assert RawAll([open.value]) + [b] + data[1..] == RawAll([open.value]) + data;
      } else {
        FeedGroups(Some(Group(b, 1)), data[1..]);
        var s := Feed(Some(Group(b, 1)), data[1..]);
        var rest := s.closed + AsGroups(s.open);
        RawOne(Group(b, 1));
        RawSingle(b);
        if open.Some? {
          var gs := [open.value] + rest;
          assert [open.value] + s.closed + AsGroups(s.open) == gs;
          RawOne(open.value);
          RawAppend([open.value], rest);
          forall i | 0 <= i < |gs| ensures Apart(gs, i) {
            if i > 0 { assert Apart(rest, i - 1); }
          }
        } else {
          assert [] + s.closed + AsGroups(s.open) == rest;
          assert [] + rest == rest;
        }
      }
    }
  }

  /** Splits a byte stream into groups as it arrives. */
  class Splitter {
    var b: byte
    var len: nat

    predicate Valid()
      reads this
    {
      len <= MAX_RUN
    }

    function Open(): Option<Group>
      reads this
    {
      if len == 0 then None else Some(Group(b, len))
    }

    constructor ()
      ensures Valid() && Open() == None
    {
      b, len := 0, 0;
    }

    /** Feed one byte; the group it closed, if any. */
    method Push(x: byte) returns (done: Option<Group>)
      requires Valid()
      modifies this
      ensures Valid() && Feed(old(Open()), [x]) == Split(AsGroups(done), Open())
    {
      assert [x][1..] == [];
      if len > 0 && x == b && len < MAX_RUN {
        len := len + 1;
        return None;
      }
      done := Take();
      b := x;
      len := 1;
    }

    /** Close the stream. */
    method Take() returns (done: Option<Group>)
      requires Valid()
      modifies this
      ensures Valid() && done == old(Open()) && Open() == None
    {
      if len == 0 {
        return None;
      }
      done := Some(Group(b, len));
      len := 0;
    }
  }
}
