/** What an input decodes to when more bytes follow it. */
module Continuations {
  import opened Sequences
  import opened Bits
  import opened Results
  import opened Walking
  import opened StreamFormat
  import opened WholeBuffer
  import opened Packing
  import opened RoundTrips

  /** Between streams nothing is carried over. */
  lemma StreamsStartFresh(s: seq<bit>, m: Machine)
    requires m.phase == StreamStart
    ensures DecodeAll(s, m) == DecodeAll(s, INITIAL)
  {
    hide BlockMove;
  }

  lemma {:induction false} DecodeExtends(s: seq<bit>, m: Machine, t: seq<bit>)
    requires WholeBytes(t)
    ensures match DecodeAll(s, m)
      case Ok(out) => DecodeAll(s + t, m) == Ahead(out, DecodeAll(t, INITIAL))
      case Err(e) => e != Truncated ==> DecodeAll(s + t, m) == Err(e)
    decreases |s|
  {
    hide NextMove, Intact, AfterMove, Plain;
    MoveInside(s, m);
    var v := NextMove(s, m);
    if v.InputEnded? {
      EndIsEmpty(s, m, v.used);
      EndExtends(s, m, t, v.used);
      DropAppend(s, t, v.used);
      assert [] + t == t;
      StreamsStartFresh(t, m);
      AheadNone(DecodeAll(t, INITIAL));
    } else if v != Stuck(Truncated) {
      NextMoveExtends(s, m, t);
      if !v.Stuck? {
        DropAppend(s, t, v.used);
        DecodeExtends(s[v.used..], AfterMove(m, v), t);
        if v.BlockRead? && Intact(v.block) && DecodeAll(s[v.used..], AfterMove(m, v)).Ok? {
          AheadTwice(Plain(v.block), DecodeAll(s[v.used..], AfterMove(m, v)).value, DecodeAll(t, INITIAL));
        }
      }
    }
  }

  /** Concatenated files decode to concatenated plaintexts, or to the second one's error. */
  lemma Concatenation(a: seq<byte>, b: seq<byte>)
    requires DecodeFile(a).Ok?
    ensures DecodeFile(a + b) == Ahead(DecodeFile(a).value, DecodeFile(b))
  {
    hide DecodeAll, BytesToBits;
    BytesToBitsAppend(a, b);
    DecodeExtends(BytesToBits(a), INITIAL, BytesToBits(b));
  }

  /** Every error but truncation is final. */
  lemma ErrorsStay(a: seq<byte>, b: seq<byte>, e: Error)
    requires DecodeFile(a) == Err(e) && e != Truncated
    ensures DecodeFile(a + b) == Err(e)
  {
    hide DecodeAll, BytesToBits;
    BytesToBitsAppend(a, b);
    DecodeExtends(BytesToBits(a), INITIAL, BytesToBits(b));
  }

  /** Cutting a decodable input short is never taken for corruption: the part decodes, and the rest decodes after
      it, or it is reported as truncated. */
  lemma PrefixIsShortOrWhole(a: seq<byte>, b: seq<byte>)
    requires DecodeFile(a + b).Ok?
    ensures DecodeFile(a) == Err(Truncated) || (DecodeFile(a).Ok? && DecodeFile(b).Ok? &&
      DecodeFile(a + b).value == DecodeFile(a).value + DecodeFile(b).value)
  {
    hide DecodeFile;
    match DecodeFile(a)
    case Ok(_) => Concatenation(a, b);
    case Err(e) => if e != Truncated { ErrorsStay(a, b, e); }
  }

  /** Compressed files may be concatenated, each with its own level. */
  lemma FilesConcatenate(a: seq<byte>, b: seq<byte>, x: seq<byte>, y: seq<byte>, i: nat, j: nat)
    requires Level(i) && Level(j) && Compressed(a, x, i) && Compressed(b, y, j)
    ensures DecodeFile(a + b) == Ok(x + y)
  {
    hide DecodeFile, Compressed;
    FileDecodes(a, x, i);
    FileDecodes(b, y, j);
    Concatenation(a, b);
  }
}
