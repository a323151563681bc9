/** What taking every run as far as it goes comes to: the groups of a plaintext are determined by it, and no other
    run-length coding of the plaintext is shorter.
 */
module Runs {
  import opened Sequences
  import opened Bits
  import opened Results
  import opened MoveToFront
  import opened RunLength
  import opened Packing

  // ----- runs are taken as far as they go -----

  /** Neighbouring groups of one byte only meet where the first is as long as a group can be. */
  ghost predicate Maximal(gs: seq<Group>) {
    forall i :: 0 <= i < |gs| ==> Full(gs, i)
  }

  ghost predicate Full(gs: seq<Group>, i: nat)
    requires i < |gs|
  {
    Legal(gs[i]) && (i > 0 && gs[i - 1].b == gs[i].b ==> gs[i - 1].rawLen == MAX_RUN)
  }

  lemma {:induction false} FeedMaximal(open: Option<Group>, data: seq<byte>)
    requires open.Some? ==> Legal(open.value)
    ensures var s := Feed(open, data); var gs := s.closed + AsGroups(s.open);
      && Maximal(gs) && (open.Some? ==> gs != [] && gs[0].b == open.value.b)
      && (open.None? && data != [] ==> gs != [] && gs[0].b == data[0])
    decreases |data|
  {
    if data == [] {
      assert [] + AsGroups(open) == AsGroups(open);
    } else {
      var b := data[0];
      if open.Some? && b == open.value.b && open.value.rawLen < MAX_RUN {
        FeedMaximal(Some(Group(b, open.value.rawLen + 1)), data[1..]);
      } else {
        FeedMaximal(Some(Group(b, 1)), data[1..]);
        var s := Feed(Some(Group(b, 1)), data[1..]);
        var rest := s.closed + AsGroups(s.open);
        Associate(AsGroups(open), s.closed, AsGroups(s.open));
        var gs := AsGroups(open) + rest;
        forall i | 0 <= i < |gs| ensures Full(gs, i) {
          if open.None? { assert Full(rest, i); } else if i > 0 { assert Full(rest, i - 1); }
        }
      }
    }
  }

  lemma MaximalTail(gs: seq<Group>)
    requires Maximal(gs) && gs != []
    ensures Maximal(gs[1..])
  {
    forall i | 0 <= i < |gs[1..]| ensures Full(gs[1..], i) { assert Full(gs, i + 1); }
  }

  lemma RawFirst(gs: seq<Group>)
    requires gs != [] && Legal(gs[0])
    ensures RawAll(gs) == Raw(gs[0]) + RawAll(gs[1..]) && RawAll(gs)[0] == gs[0].b
  {
    assert gs == [gs[0]] + gs[1..];
    RawAppend([gs[0]], gs[1..]);
    RawOne(gs[0]);
  }

  lemma RawEmpty(gs: seq<Group>)
    requires Maximal(gs)
    ensures RawAll(gs) == [] <==> gs == []
  {
    if gs != [] {
      assert Full(gs, 0);
      RawFirst(gs);
    }
  }

  /** The first group of a maximal list ends where its run does, or where a group must. */
  lemma FirstNotShorter(a: seq<Group>, b: seq<Group>)
    requires Maximal(a) && Maximal(b) && a != [] && b != [] && RawAll(a) == RawAll(b)
    ensures a[0].b == b[0].b && a[0].rawLen >= b[0].rawLen
  {
    hide RawAll;
    assert Full(a, 0) && Full(b, 0);
    RawFirst(a);
    RawFirst(b);
    var n := a[0].rawLen;
    if n < b[0].rawLen {
      MaximalTail(a);
      RawEmpty(a[1..]);
      assert RawAll(b)[n] == b[0].b;
      assert RawAll(a[1..])[0] == RawAll(a)[n];
      assert Full(a, 1) && a[1..][0] == a[1];
      RawFirst(a[1..]);
    }
  }

  lemma {:induction false} MaximalUnique(a: seq<Group>, b: seq<Group>)
    requires Maximal(a) && Maximal(b) && RawAll(a) == RawAll(b)
    ensures a == b
    decreases |a|
  {
    hide RawAll;
    RawEmpty(a);
    RawEmpty(b);
    if a != [] {
      FirstNotShorter(a, b);
      FirstNotShorter(b, a);
      assert Full(a, 0);
      RawFirst(a);
      RawFirst(b);
      DropHead(Raw(a[0]), RawAll(a[1..]));
      DropHead(Raw(a[0]), RawAll(b[1..]));
      MaximalTail(a);
      MaximalTail(b);
      MaximalUnique(a[1..], b[1..]);
      assert a == [a[0]] + a[1..] && b == [b[0]] + b[1..];
    }
  }

  /** The groups of a plaintext are the one legal list that spells it out with every run taken as far as it goes. */
  lemma GroupsAre(data: seq<byte>, gs: seq<Group>)
    ensures gs == Groups(data) <==> Maximal(gs) && RawAll(gs) == data
  {
    hide RawAll;
    FeedMaximal(None, data);
    FeedGroups(None, data);
    RawNothing();
    assert [] + data == data;
    if Maximal(gs) && RawAll(gs) == data { MaximalUnique(gs, Groups(data)); }
  }

  lemma RawNothing()
    ensures RawAll([]) == []
  {
  }

  // ----- no coding is shorter -----

  /** Coded length of everything that feeding `data` after `open` comes to. */
  function Cost(open: Option<Group>, data: seq<byte>): nat
    requires open.Some? ==> Legal(open.value)
  {
    var s := Feed(open, data);
    CodedLen(s.closed + AsGroups(s.open))
  }

  lemma {:induction false} CodedLenAppend(a: seq<Group>, b: seq<Group>)
    ensures CodedLen(a + b) == CodedLen(a) + CodedLen(b)
    decreases |b|
  {
    if b == [] {
      assert a + b == a;
    } else {
      assert (a + b)[..|a + b| - 1] == a + b[..|b| - 1];
      CodedLenAppend(a, b[..|b| - 1]);
    }
  }

  lemma CodedLenOne(g: Group)
    ensures CodedLen([g]) == EncodedLen(g) && CodedLen([]) == 0
  {
    assert [g][..0] == [];
  }

  lemma CodedLenFirst(gs: seq<Group>)
    requires gs != []
    ensures CodedLen(gs) == EncodedLen(gs[0]) + CodedLen(gs[1..])
  {
    assert gs == [gs[0]] + gs[1..];
    CodedLenAppend([gs[0]], gs[1..]);
    CodedLenOne(gs[0]);
  }

  /** A different byte closes the open group. */
  lemma CostCloses(g: Group, data: seq<byte>)
    requires Legal(g) && (data != [] ==> data[0] != g.b || g.rawLen == MAX_RUN)
    ensures Cost(Some(g), data) == EncodedLen(g) + Cost(None, data)
  {
    CodedLenOne(g);
    if data == [] {
      assert [] + AsGroups(Some(g)) == [g] && [] + AsGroups(None) == [];
    } else {
      var s := Feed(Some(Group(data[0], 1)), data[1..]);
      Associate([g], s.closed, AsGroups(s.open));
      assert [] + s.closed == s.closed;
      CodedLenAppend([g], s.closed + AsGroups(s.open));
    }
  }

  /** More of the same byte extends the open group, and begins another where that is full. */
  lemma {:induction false} CostExtends(g: Group, k: nat, rest: seq<byte>)
    requires Legal(g) && k <= MAX_RUN
    ensures Cost(Some(g), Repeat(g.b, k) + rest) ==
      if g.rawLen + k <= MAX_RUN then Cost(Some(Group(g.b, g.rawLen + k)), rest)
      else EncodedLen(Group(g.b, MAX_RUN)) + Cost(Some(Group(g.b, g.rawLen + k - MAX_RUN)), rest)
    decreases k
  {
    hide Cost, Feed, Repeat, EncodedLen;
    var data := Repeat(g.b, k) + rest;
    if k == 0 {
      assert data == rest;
    } else {
      assert data[0] == g.b && data[1..] == Repeat(g.b, k - 1) + rest;
      if g.rawLen < MAX_RUN {
        CostGoesOn(g, data);
        CostExtends(Group(g.b, g.rawLen + 1), k - 1, rest);
      } else {
        CostCloses(g, data);
        CostBegins(g.b, data);
        CostExtends(Group(g.b, 1), k - 1, rest);
      }
    }
  }

  lemma CostGoesOn(g: Group, data: seq<byte>)
    requires Legal(g) && g.rawLen < MAX_RUN && data != [] && data[0] == g.b
    ensures Cost(Some(g), data) == Cost(Some(Group(g.b, g.rawLen + 1)), data[1..])
  {
  }

  lemma CostBegins(b: byte, data: seq<byte>)
    requires data != [] && data[0] == b
    ensures Cost(None, data) == Cost(Some(Group(b, 1)), data[1..])
  {
    var s := Feed(Some(Group(b, 1)), data[1..]);
    assert [] + s.closed == s.closed;
  }

  lemma SeparatedTail(gs: seq<Group>)
    requires Separated(gs) && gs != []
    ensures Separated(gs[1..]) && Legal(gs[0]) && (|gs| > 1 && gs[1].b == gs[0].b ==> gs[0].rawLen >= 4)
  {
    assert Apart(gs, 0);
    forall i | 0 <= i < |gs[1..]| ensures Apart(gs[1..], i) { assert Apart(gs, i + 1); }
    if |gs| > 1 { assert Apart(gs, 1); }
  }

  /** Behind an open group of the same byte, a separated list costs at least what greed does, less the five bytes
      that the group before it has cost already. */
  lemma {:induction false} CostBehind(open: Group, gs: seq<Group>)
    requires Legal(open) && Separated(gs)
    ensures Cost(Some(open), RawAll(gs)) <= CodedLen(gs)
      + if gs != [] && gs[0].b == open.b then 5 else EncodedLen(open)
    decreases |gs|, 1
  {
    hide RawAll, CodedLen, Cost, Feed;
    if gs == [] {
      RawNothing();
      CostCloses(open, []);
      CostNothing();
    } else {
      var g, tail := gs[0], gs[1..];
      SeparatedTail(gs);
      RawFirst(gs);
      CodedLenFirst(gs);
      if g.b != open.b {
        CostCloses(open, RawAll(gs));
        CostOfGroups(gs);
      } else {
        CostExtends(open, g.rawLen, RawAll(tail));
        var n := open.rawLen + g.rawLen;
        CostBehind(Group(g.b, if n <= MAX_RUN then n else n - MAX_RUN), tail);
      }
    }
  }

  lemma CostNothing()
    ensures Cost(None, []) == 0 && CodedLen([]) == 0
  {
  }

  lemma {:induction false} CostOfGroups(gs: seq<Group>)
    requires Separated(gs)
    ensures Cost(None, RawAll(gs)) <= CodedLen(gs)
    decreases |gs|, 0
  {
    hide RawAll, CodedLen, Cost, Feed;
    if gs == [] {
      RawNothing();
      CostNothing();
    } else {
      var g, tail := gs[0], gs[1..];
      SeparatedTail(gs);
      RawFirst(gs);
      CodedLenFirst(gs);
      assert (Raw(g) + RawAll(tail))[1..] == Repeat(g.b, g.rawLen - 1) + RawAll(tail);
      CostBegins(g.b, RawAll(gs));
      CostExtends(Group(g.b, 1), g.rawLen - 1, RawAll(tail));
      CostBehind(g, tail);
    }
  }

  /** A byte string that ends outside a run of four is the coded form of separated groups. */
  lemma {:induction false} Ungrouped(s: seq<byte>) returns (gs: seq<Group>)
    ensures var r := After(START, s);
      && Separated(gs) && (forall i :: 0 <= i < |gs| ==> Legal(gs[i]))
      && s == CodedAll(gs) + Pending(r) && Behind(gs, r)
    decreases |s|
  {
    if s == [] {
      gs := [];
      PendingStart();
    } else {
      var t, x := s[..|s| - 1], s[|s| - 1];
      gs := Ungrouped(t);
      var r := After(START, t);
      assert s == t + [x];
      ExpandAppend(START, t, [x]);
      AfterOne(r, x);
      Associate(CodedAll(gs), Pending(r), [x]);
      gs := UngroupedStep(gs, r, x);
    }
  }

  /** The bytes of a run not yet closed. */
  function Pending(r: Run): seq<byte>
    requires Possible(r)
  {
    if r.count == 0 then [] else Repeat(r.prev as byte, r.count)
  }

  /** A run may be open behind these groups. */
  ghost predicate Behind(gs: seq<Group>, r: Run) {
    gs != [] && (r.count == 0 || gs[|gs| - 1].b == r.prev) ==> gs[|gs| - 1].rawLen >= 4
  }

  lemma PendingStart()
    ensures Pending(START) == [] && CodedAll([]) == [] && After(START, []) == START
  {
  }

  lemma AfterOne(r: Run, x: byte)
    requires Possible(r)
    ensures After(r, [x]) == Next(r, x)
  {
    assert [x][1..] == [];
  }

  lemma CodedMore(gs: seq<Group>, g: Group)
    requires Separated(gs) && Legal(g) && (gs != [] && gs[|gs| - 1].b == g.b ==> gs[|gs| - 1].rawLen >= 4)
    ensures Separated(gs + [g]) && forall i :: 0 <= i < |gs + [g]| ==> Legal((gs + [g])[i])
    ensures (forall i :: 0 <= i < |gs| ==> Legal(gs[i])) && CodedAll(gs + [g]) == CodedAll(gs) + RunLength.Coded(g)
  {
    hide CodedAll, RunLength.Coded;
    AllLegal(gs);
    SeparatedOneMore(gs, g);
    AllLegal(gs + [g]);
    CodedOneMore(gs, g);
  }

  lemma AllLegal(gs: seq<Group>)
    requires Separated(gs)
    ensures forall i :: 0 <= i < |gs| ==> Legal(gs[i])
  {
    forall i | 0 <= i < |gs| ensures Legal(gs[i]) { assert Apart(gs, i); }
  }

  lemma SeparatedOneMore(gs: seq<Group>, g: Group)
    requires Separated(gs) && Legal(g) && (gs != [] && gs[|gs| - 1].b == g.b ==> gs[|gs| - 1].rawLen >= 4)
    ensures Separated(gs + [g])
  {
    hide Legal;
    forall i | 0 <= i < |gs + [g]| ensures Apart(gs + [g], i) {
      if i < |gs| { assert Apart(gs, i); }
    }
  }

  lemma CodedOneMore(gs: seq<Group>, g: Group)
    requires (forall i :: 0 <= i < |gs| ==> Legal(gs[i])) && Legal(g)
    ensures CodedAll(gs + [g]) == CodedAll(gs) + RunLength.Coded(g)
  {
    hide Legal, RunLength.Coded;
    assert (gs + [g])[..|gs|] == gs;
  }

  lemma UngroupedStep(gs: seq<Group>, r: Run, x: byte) returns (hs: seq<Group>)
    requires Possible(r) && Separated(gs) && (forall i :: 0 <= i < |gs| ==> Legal(gs[i])) && Behind(gs, r)
    ensures Separated(hs) && (forall i :: 0 <= i < |hs| ==> Legal(hs[i])) && Behind(hs, Next(r, x))
    ensures CodedAll(gs) + (Pending(r) + [x]) == CodedAll(hs) + Pending(Next(r, x))
  {
    hide CodedAll;
    if r.count == 4 {
      var g := Group(r.prev as byte, 4 + x);
      CodedMore(gs, g);
      hs := gs + [g];
      assert CodedAll(hs) + [] == CodedAll(hs);
    } else if r.count > 0 && x != r.prev {
      var g := Group(r.prev as byte, r.count);
      CodedMore(gs, g);
      hs := gs + [g];
      assert Repeat(x, 1) == [x];
      Associate(CodedAll(gs), Pending(r), [x]);
    } else {
      hs := gs;
      if r.count == 0 {
        assert Repeat(x, 1) == [x];
      } else {
        assert Repeat(x, r.count + 1) == Repeat(x, r.count) + [x];
      }
    }
  }

  /** No byte string that the decoder expands to `data`, ending outside a run of four, is shorter than the coded
      groups of `data`. */
  lemma NoCodingIsShorter(data: seq<byte>, s: seq<byte>)
    requires Expand(START, s) == data && After(START, s).count != 4
    ensures CodedLen(Groups(data)) <= |s|
  {
    hide Expand, After, RawAll, CodedLen, CodedAll;
    var gs := Ungrouped(s);
    var r := After(START, s);
    if r.count > 0 {
      CodedMore(gs, Group(r.prev as byte, r.count));
      gs := gs + [Group(r.prev as byte, r.count)];
    } else {
      assert CodedAll(gs) + [] == CodedAll(gs);
    }
    assert s == CodedAll(gs);
    GroupsExpand(gs);
    CodedLenIs(gs);
    CostOfGroups(gs);
  }
}
