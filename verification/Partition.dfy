/** Which partition into blocks the encoder makes: a block is closed only by a group that does not fit, and that, with
    the limit, leaves no choice.
 */
module Partition {
  import opened Bits
  import opened Results
  import opened RunLength
  import opened Runs
  import opened Packing

  /** Block `i + 1` begins with a group for which block `i` had no room. */
  ghost predicate NoRoom(bs: seq<seq<Group>>, limit: nat, i: nat)
    requires i + 1 < |bs|
  {
    bs[i + 1] != [] && CodedLen(bs[i]) + EncodedLen(bs[i + 1][0]) > limit
  }

  /** No block is empty or above the limit, and each but the last is as full as it could be. */
  ghost predicate Packed(bs: seq<seq<Group>>, limit: nat) {
    && (forall i :: 0 <= i < |bs| ==> bs[i] != [] && CodedLen(bs[i]) <= limit)
    && (forall i :: 0 <= i < |bs| - 1 ==> NoRoom(bs, limit, i))
  }

  lemma PackedPrefix(bs: seq<seq<Group>>, limit: nat, k: nat)
    requires Packed(bs, limit) && k <= |bs|
    ensures Packed(bs[..k], limit)
  {
    forall i | 0 <= i < k - 1 ensures NoRoom(bs[..k], limit, i) { assert NoRoom(bs, limit, i); }
  }

  lemma GroupFits(g: Group, limit: nat)
    requires Legal(g) && limit >= 5
    ensures CodedLen([g]) <= limit && CodedLen([]) == 0
  {
    CodedLenOne(g);
  }

  lemma {:induction false} PackPacks(gs: seq<Group>, limit: nat)
    requires (forall i :: 0 <= i < |gs| ==> Legal(gs[i])) && limit >= 5
    ensures var p := Pack(gs, limit);
      Packed(Flushed(p), limit) && (p.open == [] <==> gs == []) && (gs == [] ==> p.full == [])
  {
    if gs != [] {
      var n := |gs| - 1;
      PackPacks(gs[..n], limit);
      var p, g := Pack(gs[..n], limit), gs[n];
      GroupFits(g, limit);
      CodedLenMore(p.open, g);
      var bs, q := Flushed(p), Flushed(Pack(gs, limit));
      if CodedLen(p.open) + EncodedLen(g) > limit {
        assert q == bs + [[g]];
        forall i | 0 <= i < |q| - 1 ensures NoRoom(q, limit, i) {
          if i < |bs| - 1 { assert NoRoom(bs, limit, i); }
        }
      } else {
        assert q == p.full + [p.open + [g]];
        forall i | 0 <= i < |q| - 1 ensures NoRoom(q, limit, i) { assert NoRoom(bs, limit, i); }
      }
    }
  }

  lemma PackedLast(bs: seq<seq<Group>>, b: seq<Group>, g: Group, limit: nat)
    requires Packed(bs + [b + [g]], limit) && b != []
    ensures Packed(bs + [b], limit)
  {
    var all, cut := bs + [b + [g]], bs + [b];
    CodedLenMore(b, g);
    assert all[|bs|] == b + [g] && cut[|bs|] == b;
    forall i | 0 <= i < |cut| ensures cut[i] != [] && CodedLen(cut[i]) <= limit {
      if i < |bs| { assert cut[i] == all[i]; }
    }
    forall i | 0 <= i < |cut| - 1 ensures NoRoom(cut, limit, i) { assert NoRoom(all, limit, i); }
  }

  lemma FlatEmpty(bs: seq<seq<Group>>, limit: nat)
    requires Packed(bs, limit)
    ensures Flat(bs) == [] <==> bs == []
  {
    if bs != [] { assert bs[|bs| - 1] != []; }
  }

  /** Whatever is packed is what packing makes. */
  lemma {:induction false} PackedUnique(bs: seq<seq<Group>>, limit: nat)
    requires Packed(bs, limit)
    ensures bs == Flushed(Pack(Flat(bs), limit))
    decreases |Flat(bs)|
  {
    hide Packed, Flat, Flushed, Pack;
    FlatEmpty(bs, limit);
    if bs == [] {
      NothingPacked(limit);
    } else {
      var front, b, g := LastGroup(bs, limit);
      if b == [] {
        PackedUnique(front, limit);
        LastIsOpen(front, limit);
        PlaceAlone(front, g, limit);
      } else {
        PackedUnique(front + [b], limit);
        LastIsOpen(front + [b], limit);
        PlaceMore(front, b, g, limit);
      }
    }
  }

  lemma NothingPacked(limit: nat)
    ensures Flushed(Pack(Flat([]), limit)) == []
  {
  }

  /** The last group, and what is packed without it. */
  lemma LastGroup(bs: seq<seq<Group>>, limit: nat) returns (front: seq<seq<Group>>, b: seq<Group>, g: Group)
    requires Packed(bs, limit) && bs != []
    ensures bs == front + [b + [g]] && Packed(if b == [] then front else front + [b], limit)
    ensures var cut := if b == [] then front else front + [b]; Flat(bs) == Flat(cut) + [g]
  {
    var m := |bs| - 1;
    var last := bs[m];
    front, b, g := bs[..m], last[..|last| - 1], last[|last| - 1];
    assert last == b + [g] && bs == front + [last];
    if b == [] {
      assert Flat(bs) == Flat(front) + [g];
      PackedPrefix(bs, limit, m);
    } else {
      PackedLast(front, b, g, limit);
      FlatMore(front, b);
    }
  }

  lemma PackMore(gs: seq<Group>, g: Group, limit: nat)
    ensures Pack(gs + [g], limit) == Place(Pack(gs, limit), g, limit)
  {
    assert (gs + [g])[..|gs|] == gs;
  }

  lemma PlaceAlone(front: seq<seq<Group>>, g: Group, limit: nat)
    requires Packed(front + [[] + [g]], limit)
    requires var p := Pack(Flat(front), limit);
      if front == [] then p == Placed([], []) else p == Placed(front[..|front| - 1], front[|front| - 1])
    ensures Flushed(Pack(Flat(front) + [g], limit)) == front + [[] + [g]]
  {
    hide Pack, Flat;
    var bs := front + [[] + [g]];
    assert [] + [g] == [g];
    PackMore(Flat(front), g, limit);
    CodedLenMore([], g);
    assert CodedLen(bs[|front|]) <= limit;
    if front != [] {
      assert NoRoom(bs, limit, |front| - 1);
      assert front == front[..|front| - 1] + [front[|front| - 1]];
    }
  }

  lemma PlaceMore(front: seq<seq<Group>>, b: seq<Group>, g: Group, limit: nat)
    requires Packed(front + [b + [g]], limit) && b != []
    requires Pack(Flat(front + [b]), limit) == Placed((front + [b])[..|front|], (front + [b])[|front|])
    ensures Flushed(Pack(Flat(front + [b]) + [g], limit)) == front + [b + [g]]
  {
    hide Pack, Flat;
    PackMore(Flat(front + [b]), g, limit);
    CodedLenMore(b, g);
    assert (front + [b + [g]])[|front|] == b + [g] && (front + [b])[..|front|] == front;
  }

  lemma LastIsOpen(bs: seq<seq<Group>>, limit: nat)
    requires Packed(bs, limit) && bs == Flushed(Pack(Flat(bs), limit))
    ensures var p := Pack(Flat(bs), limit);
      if bs == [] then p == Placed([], []) else p == Placed(bs[..|bs| - 1], bs[|bs| - 1])
  {
    FlatEmpty(bs, limit);
    OpenUnlessEmpty(Flat(bs), limit);
  }

  lemma OpenUnlessEmpty(gs: seq<Group>, limit: nat)
    ensures var p := Pack(gs, limit); (p.open == [] <==> gs == []) && (gs == [] ==> p.full == [])
  {
  }

  /** The blocks of a plaintext are the one sequence of packed blocks that its groups make. */
  lemma BlocksAre(data: seq<byte>, limit: nat, bs: seq<seq<Group>>)
    requires limit >= 5
    ensures bs == BlocksOf(data, limit) <==> Packed(bs, limit) && Flat(bs) == Groups(data)
  {
    FeedMaximal(None, data);
    var gs := Groups(data);
    forall i | 0 <= i < |gs| ensures Legal(gs[i]) { assert Full(gs, i); }
    PackPacks(gs, limit);
    BlocksFlat(data, limit);
    if Packed(bs, limit) && Flat(bs) == gs { PackedUnique(bs, limit); }
  }

  lemma BlocksFlat(data: seq<byte>, limit: nat)
    requires limit >= 5
    ensures Flat(BlocksOf(data, limit)) == Groups(data)
  {
    FeedGroups(None, data);
    PackFine(Groups(data), limit);
    var p := Pack(Groups(data), limit);
    FlatMore(p.full, p.open);
    if p.open == [] { assert Flat(p.full) + [] == Flat(p.full); }
  }

  /** A plaintext whose coded form fits one block is one block. */
  lemma OneBlock(data: seq<byte>, limit: nat)
    requires limit >= 5 && data != [] && CodedLen(Groups(data)) <= limit
    ensures BlocksOf(data, limit) == [Groups(data)]
  {
    var gs := Groups(data);
    FeedMaximal(None, data);
    assert [gs][..0] == [] && [] + gs == gs;
    BlocksAre(data, limit, [gs]);
  }

  /** No other way to cut the groups into blocks within the limit makes fewer of them: whatever the cut, its first `k`
      blocks reach no further than the encoder's first `k`. */
  lemma {:induction false} FewestBlocks(bs: seq<seq<Group>>, cs: seq<seq<Group>>, limit: nat, k: nat)
    requires Packed(bs, limit) && Flat(cs) == Flat(bs) && (forall i :: 0 <= i < |cs| ==> CodedLen(cs[i]) <= limit)
    requires k <= |cs| && k <= |bs|
    ensures |Flat(cs[..k])| <= |Flat(bs[..k])|
  {
    hide Flat, Packed, CodedLen;
    if k == |bs| {
      assert bs[..k] == bs;
      FlatPrefix(cs, k);
    } else if k > 0 {
      FewestBlocks(bs, cs, limit, k - 1);
      FlatSlice(bs, k - 1);
      FlatSlice(cs, k - 1);
      NextStarts(bs, k, limit);
      if |Flat(cs[..k])| > |Flat(bs[..k])| {
        RoomLeft(Flat(bs), |Flat(cs[..k - 1])|, |Flat(bs[..k - 1])|, |Flat(bs[..k])|, |Flat(cs[..k])|);
      }
    }
  }

  lemma RoomLeft(all: seq<Group>, x: nat, y: nat, u: nat, v: nat)
    requires x <= y <= u < v <= |all|
    ensures CodedLen(all[y..u]) + EncodedLen(all[u]) <= CodedLen(all[x..v])
  {
    hide CodedLen;
    var behind := [all[u]] + all[u + 1..v];
    assert all[x..v] == all[x..y] + (all[y..u] + behind);
    CodedLenAppend(all[x..y], all[y..u] + behind);
    CodedLenAppend(all[y..u], behind);
    CodedLenAppend([all[u]], all[u + 1..v]);
    CodedLenOne(all[u]);
  }

  lemma FlatStep(bs: seq<seq<Group>>, i: nat)
    requires i < |bs|
    ensures Flat(bs[..i + 1]) == Flat(bs[..i]) + bs[i]
  {
    assert bs[..i + 1][..i] == bs[..i];
  }

  lemma {:induction false} FlatPrefix(bs: seq<seq<Group>>, k: nat)
    requires k <= |bs|
    ensures Flat(bs[..k]) <= Flat(bs)
    decreases |bs| - k
  {
    if k == |bs| {
      assert bs[..k] == bs;
    } else {
      FlatPrefix(bs, k + 1);
      FlatStep(bs, k);
    }
  }

  lemma FlatSlice(bs: seq<seq<Group>>, i: nat)
    requires i < |bs|
    ensures |Flat(bs[..i])| <= |Flat(bs[..i + 1])| <= |Flat(bs)|
    ensures Flat(bs)[|Flat(bs[..i])|..|Flat(bs[..i + 1])|] == bs[i]
  {
    FlatPrefix(bs, i + 1);
    FlatStep(bs, i);
  }

  lemma NextStarts(bs: seq<seq<Group>>, k: nat, limit: nat)
    requires Packed(bs, limit) && 0 < k < |bs|
    ensures bs[k] != [] && |Flat(bs[..k])| < |Flat(bs)| && Flat(bs)[|Flat(bs[..k])|] == bs[k][0]
    ensures CodedLen(bs[k - 1]) + EncodedLen(bs[k][0]) > limit
  {
    assert NoRoom(bs, limit, k - 1);
    FlatSlice(bs, k);
  }

  lemma NotEmpty(bs: seq<seq<Group>>, limit: nat, i: nat)
    requires Packed(bs, limit) && i < |bs|
    ensures bs[i] != [] && |Flat(bs[..i + 1])| == |Flat(bs[..i])| + |bs[i]|
  {
    FlatStep(bs, i);
  }

  /** So the encoder's blocks are as few as the limit allows. */
  lemma NoFewerBlocks(data: seq<byte>, limit: nat, cs: seq<seq<Group>>)
    requires limit >= 5 && Flat(cs) == Groups(data) && forall i :: 0 <= i < |cs| ==> CodedLen(cs[i]) <= limit
    ensures |BlocksOf(data, limit)| <= |cs|
  {
    hide Flat, Packed, CodedLen, BlocksOf, Groups;
    var bs := BlocksOf(data, limit);
    BlocksAre(data, limit, bs);
    if |cs| < |bs| {
      NotEmpty(bs, limit, |cs|);
      assert cs[..|cs|] == cs && bs[|cs|] != [];
      FlatSlice(bs, |cs|);
      FewestBlocks(bs, cs, limit, |cs|);
    }
  }

  /** A file is at most one block exactly when its coded form leaves nineteen bytes of the declared size. */
  lemma LevelBlocks(level: nat, data: seq<byte>)
    requires Level(level)
    ensures |BlocksOf(data, BlockLimit(level))| <= 1 <==> CodedLen(Groups(data)) <= 100_000 * level - 19
  {
    var limit := BlockLimit(level);
    var bs := BlocksOf(data, limit);
    BlocksAre(data, limit, bs);
    FlatFew(bs);
    if data == [] {
      assert Groups(data) == [];
      FlatEmpty(bs, limit);
    } else if CodedLen(Groups(data)) <= limit {
      OneBlock(data, limit);
    }
  }

  lemma FlatFew(bs: seq<seq<Group>>)
    ensures bs == [] ==> CodedLen(Flat(bs)) == 0
    ensures |bs| == 1 ==> Flat(bs) == bs[0]
  {
    if |bs| == 1 { assert bs[..0] == [] && [] + bs[0] == bs[0]; }
  }
}
