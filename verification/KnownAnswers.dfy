/** A file given byte by byte, and what it decodes to. It holds the bytes FF FF FF FE in one block of a level 1
    stream, with one selector, which picks the second of two tables; its checksum is the complement of the
    generator polynomial.
 */
module KnownAnswers {
  import opened Sequences
  import opened Bits
  import opened Results
  import opened Permutations
  import opened PackageMerge
  import opened Crc
  import opened CrcBits
  import opened BitReading
  import opened Canonical
  import opened MoveToFront
  import opened Grouping
  import opened Bwt
  import opened RunLength
  import opened Walking
  import opened BlockFormat
  import opened BlockWritten
  import opened StreamFormat
  import opened Packing
  import opened RoundTrips
  import opened Integrity

  const FILE: seq<byte> :=
    [0x42, 0x5A, 0x68, 0x31] + [0x31, 0x41, 0x59, 0x26] + [0x53, 0x59, 0xFB, 0x3E]
    + [0xE2, 0x48, 0x00, 0x00] + [0x01, 0x80, 0x00, 0x80] + [0x01, 0xA0, 0x00, 0x30]
    + [0x80, 0x6F, 0x49, 0x2E] + [0x2E, 0xE4, 0x8A, 0x70] + [0xA1, 0x21, 0xF6, 0x7D]
    + [0xC4, 0x90]
  const NUMBER: nat := 0x425A_6831_3141_5926_5359_FB3E_E248_0000_0180_0080_01A0_0030_806F_492E_2EE4_8A70_A121_F67D_C490
  const CRC: word := 0xFB3E_E248
  const WHICH_GROUPS: seq<bit> := [0, 0, 0, 0, 0, 0, 0, 0, 0, 0, 0, 0, 0, 0, 0, 1]
  const WHICH_BYTES: seq<bit> := [0, 0, 0, 0, 0, 0, 0, 0, 0, 0, 0, 0, 0, 0, 1, 1]
  const SELECTOR: seq<bit> := [1, 0]
  const EVEN_TABLE: seq<bit> := [0, 0, 0, 1, 0, 0, 0, 0, 0]
  const SKEW_TABLE: seq<bit> := [0, 0, 0, 1, 1, 0, 1, 1, 1, 1, 0, 1, 0, 0, 1, 0, 0]
  const SYMBOLS: seq<bit> := [1, 0, 0, 1, 0, 1, 1, 1]

  // ----- the number that the bytes spell -----

  lemma BigEndianAppend(a: seq<byte>, b: seq<byte>)
    ensures BigEndian(a + b) == BigEndian(a) * Pow2(8 * |b|) + BigEndian(b)
  {
    hide BigEndian, BytesToBits;
    BigEndianIsValue(a + b);
    BigEndianIsValue(a);
    BigEndianIsValue(b);
    BytesToBitsAppend(a, b);
    ValueAppend(BytesToBits(a), BytesToBits(b));
  }

  function Few(b: seq<byte>): nat
    requires |b| == 2 || |b| == 4
  {
    if |b| == 2 then 0x100 * (b[0] as int) + b[1]
    else 0x100_0000 * (b[0] as int) + 0x1_0000 * (b[1] as int) + 0x100 * (b[2] as int) + b[3]
  }

  lemma TwoOrFour(b: seq<byte>)
    requires |b| == 2 || |b| == 4
    ensures BigEndian(b) == Few(b) && Pow2(8 * |b|) == if |b| == 2 then 0x1_0000 else 0x1_0000_0000
  {
    var n := 8 * |b|;
    Pow2Words(n);
    assert b[..2][..1] == b[..1] && b[..1][..0] == [];
    assert BigEndian(b[..1]) == b[0];
    assert BigEndian(b[..2]) == 256 * (b[0] as int) + b[1];
    if |b| == 2 {
      assert b[..2] == b;
    } else {
      assert b[..3][..2] == b[..2];
      assert BigEndian(b[..3]) == 256 * (256 * (b[0] as int) + b[1]) + b[2];
    }
  }

  /** A few bytes more of the file. */
  lemma Behind(front: seq<byte>, v: nat, more: seq<byte>, w: nat) returns (all: seq<byte>)
    requires BigEndian(front) == v && (|more| == 2 || |more| == 4) && Few(more) == w
    ensures all == front + more && BigEndian(all) == v * (if |more| == 2 then 0x1_0000 else 0x1_0000_0000) + w
  {
    hide BigEndian, Pow2, Few;
    all := front + more;
    BigEndianAppend(front, more);
    TwoOrFour(more);
  }

  lemma FileNumber()
    ensures BigEndian(FILE) == NUMBER
  {
    hide BigEndian;
    var acc := [0x42, 0x5A, 0x68, 0x31];
    TwoOrFour(acc);
    acc := Behind(acc, 0x425A_6831, [0x31, 0x41, 0x59, 0x26], 0x3141_5926);
    acc := Behind(acc, 0x425A_6831_3141_5926, [0x53, 0x59, 0xFB, 0x3E], 0x5359_FB3E);
    acc := Behind(acc, 0x425A_6831_3141_5926_5359_FB3E, [0xE2, 0x48, 0x00, 0x00], 0xE248_0000);
    acc := Behind(acc, 0x425A_6831_3141_5926_5359_FB3E_E248_0000, [0x01, 0x80, 0x00, 0x80], 0x180_0080);
    acc := Behind(acc, 0x425A_6831_3141_5926_5359_FB3E_E248_0000_0180_0080, [0x01, 0xA0, 0x00, 0x30], 0x1A0_0030);
    acc := Behind(acc, 0x425A_6831_3141_5926_5359_FB3E_E248_0000_0180_0080_01A0_0030, [0x80, 0x6F, 0x49, 0x2E],
      0x806F_492E);
    acc := Behind(acc, 0x425A_6831_3141_5926_5359_FB3E_E248_0000_0180_0080_01A0_0030_806F_492E,
      [0x2E, 0xE4, 0x8A, 0x70], 0x2EE4_8A70);
    acc := Behind(acc, 0x425A_6831_3141_5926_5359_FB3E_E248_0000_0180_0080_01A0_0030_806F_492E_2EE4_8A70,
      [0xA1, 0x21, 0xF6, 0x7D], 0xA121_F67D);
    acc := Behind(acc, 0x425A_6831_3141_5926_5359_FB3E_E248_0000_0180_0080_01A0_0030_806F_492E_2EE4_8A70_A121_F67D,
      [0xC4, 0x90], 0xC490);
  }

  // ----- the number that the fields spell -----

  lemma Widths(k: nat)
    requires k in {1, 2, 3, 8, 9, 15, 16, 17, 24, 32, 48}
    ensures Pow2(k) == Width(k)
  {
    Pow2Small();
    if k in {15, 16, 24, 32, 48} { Pow2Words(k); }
    if k == 17 { Pow2Words(16); }
    if k == 9 { assert Pow2(10) == 2 * Pow2(9); }
  }

  function Width(k: nat): nat {
    if k == 1 then 2 else if k == 2 then 4 else if k == 3 then 8 else if k == 8 then 0x100 else if k == 9 then 0x200
    else if k == 15 then 0x8000 else if k == 16 then 0x1_0000 else if k == 17 then 0x2_0000
    else if k == 24 then 0x100_0000 else if k == 32 then 0x1_0000_0000 else 0x1_0000_0000_0000
  }

  /** One more field moved from the front of what is left to the end of what has been read. */
  lemma Peel(acc: seq<bit>, v: nat, x: seq<bit>, w: nat, k: nat, rest: seq<bit>) returns (more: seq<bit>)
    requires Value(acc) == v && Value(x) == w && |x| == k && k in {1, 2, 3, 8, 9, 15, 16, 17, 24, 32, 48}
    ensures more == acc + x && more + rest == acc + (x + rest) && Value(more) == v * Width(k) + w
  {
    hide Value, Pow2, Width;
    ValueAppend(acc, x);
    Widths(k);
    Associate(acc, x, rest);
    more := acc + x;
  }

  lemma FieldValue(v: nat, k: nat)
    requires k in {1, 2, 3, 8, 9, 15, 16, 17, 24, 32, 48} && v < Width(k)
    ensures Value(ToBits(v, k)) == v
  {
    hide Value, ToBits, Width;
    Widths(k);
    ToBitsValue(v, k);
    DivModUnique(v, Pow2(k), 0, v);
  }

  lemma Constants()
    ensures Value([]) == 0 && Value([0]) == 0 && Value(SELECTOR) == 2
    ensures Value(WHICH_GROUPS) == 1 && Value(WHICH_BYTES) == 3
    ensures Value(EVEN_TABLE) == 0x20 && Value(SKEW_TABLE) == 0x37A4 && Value(SYMBOLS) == 0x97
  {
    assert [0][..0] == [] && SELECTOR[..1] == [1] && [1][..0] == [];
    assert Value([1]) == 1;
    Literal(WHICH_GROUPS);
    Literal(WHICH_BYTES);
    Literal(EVEN_TABLE);
    Literal(SKEW_TABLE);
    Literal(SYMBOLS);
  }

  /** One or two bytes, or one bit more. */
  lemma Literal(s: seq<bit>)
    requires |s| in {8, 9, 16, 17}
    ensures |s| <= 9 ==> Value(s) == Whole(s)
    ensures |s| > 9 ==> Value(s) == Width(|s| - 8) * Eight(s[..8]) + Whole(s[8..])
  {
    hide Value, Eight;
    if |s| <= 9 {
      NineBits(s);
    } else {
      NineBits(s[..8]);
      assert s[..8][..8] == s[..8];
      NineBits(s[8..]);
      assert s == s[..8] + s[8..];
      ValueAppend(s[..8], s[8..]);
      Widths(|s| - 8);
    }
  }

  function Whole(s: seq<bit>): nat
    requires |s| == 8 || |s| == 9
  {
    if |s| == 8 then Eight(s) else 2 * Eight(s[..8]) + s[8]
  }

  lemma NineBits(s: seq<bit>)
    requires |s| == 8 || |s| == 9
    ensures Value(s) == Whole(s)
  {
    EightBits(s[..8]);
    if |s| == 8 { assert s[..8] == s; } else { ValueLast(s); }
  }

  function Eight(s: seq<bit>): nat
    requires |s| == 8
  {
    var a: nat, b: nat, c: nat, d: nat := s[0], s[1], s[2], s[3];
    var e: nat, f: nat, g: nat, h: nat := s[4], s[5], s[6], s[7];
    128 * a + 64 * b + 32 * c + 16 * d + 8 * e + 4 * f + 2 * g + h
  }

  lemma EightBits(s: seq<bit>)
    requires |s| == 8
    ensures Value(s) == Eight(s)
  {
    assert s[..7][..6] == s[..6] && s[..6][..5] == s[..5] && s[..5][..4] == s[..4] && s[..4][..3] == s[..3];
    assert s[..3][..2] == s[..2] && s[..2][..1] == s[..1] && s[..1][..0] == [];
    ValueLast(s);
    ValueLast(s[..7]);
    ValueLast(s[..6]);
    ValueLast(s[..5]);
    ValueLast(s[..4]);
    ValueLast(s[..3]);
    ValueLast(s[..2]);
    ValueLast(s[..1]);
  }

  /** The fields in the order they are laid out. */
  function Fields(): seq<bit> {
    ToBits(0x42, 8) + (ToBits(0x5A, 8) + (ToBits(0x68, 8) + (ToBits(0x31, 8) + (ToBits(BLOCK_MAGIC, 48) + Body()))))
  }

  function Body(): seq<bit> {
    ToBits(CRC, 32) + ([0] + (ToBits(3, 24) + (WHICH_GROUPS + (WHICH_BYTES + (ToBits(2, 3) + (ToBits(1, 15)
      + (SELECTOR + (EVEN_TABLE + (SKEW_TABLE + Tail())))))))))
  }

  function Tail(): seq<bit> {
    SYMBOLS + (ToBits(EOS_MAGIC, 48) + (ToBits(CRC, 32) + [0]))
  }

  /** The fields up to the end of the symbol map. */
  lemma FirstFields(rest: seq<bit>) returns (acc: seq<bit>)
    ensures acc + rest
      == ToBits(0x42, 8) + (ToBits(0x5A, 8) + (ToBits(0x68, 8) + (ToBits(0x31, 8) + (ToBits(BLOCK_MAGIC, 48)
      + (ToBits(CRC, 32) + ([0] + (ToBits(3, 24) + (WHICH_GROUPS + (WHICH_BYTES + rest)))))))))
    ensures Value(acc) == 0x84_B4D0_6262_82B2_4CA6_B3F6_7DC4_9000_0003_0001_0003
  {
    hide Value, ToBits;
    Constants();
    FieldValues();
    var r9 := WHICH_BYTES + rest;
    var r8 := WHICH_GROUPS + r9;
    var r7 := ToBits(3, 24) + r8;
    var r6 := [0] + r7;
    var r5 := ToBits(CRC, 32) + r6;
    var r4 := ToBits(BLOCK_MAGIC, 48) + r5;
    var r3 := ToBits(0x31, 8) + r4;
    var r2 := ToBits(0x68, 8) + r3;
    var r1 := ToBits(0x5A, 8) + r2;
    acc := [];
    acc := Peel(acc, 0, ToBits(0x42, 8), 0x42, 8, r1);
    acc := Peel(acc, 0x42, ToBits(0x5A, 8), 0x5A, 8, r2);
    acc := Peel(acc, 0x425A, ToBits(0x68, 8), 0x68, 8, r3);
    acc := Peel(acc, 0x42_5A68, ToBits(0x31, 8), 0x31, 8, r4);
    acc := Peel(acc, 0x425A_6831, ToBits(BLOCK_MAGIC, 48), 0x3141_5926_5359, 48, r5);
    acc := Peel(acc, 0x425A_6831_3141_5926_5359, ToBits(CRC, 32), 0xFB3E_E248, 32, r6);
    acc := Peel(acc, 0x425A_6831_3141_5926_5359_FB3E_E248, [0], 0, 1, r7);
    acc := Peel(acc, 0x84B4_D062_6282_B24C_A6B3_F67D_C490, ToBits(3, 24), 3, 24, r8);
    acc := Peel(acc, 0x84_B4D0_6262_82B2_4CA6_B3F6_7DC4_9000_0003, WHICH_GROUPS, 1, 16, r9);
    acc := Peel(acc, 0x84_B4D0_6262_82B2_4CA6_B3F6_7DC4_9000_0003_0001, WHICH_BYTES, 3, 16, rest);
    assert [] + (ToBits(0x42, 8) + r1) == ToBits(0x42, 8) + r1;
  }

  /** The counts, the selector and the tables behind them. */
  lemma NextFields(front: seq<bit>, rest: seq<bit>) returns (acc: seq<bit>)
    requires Value(front) == 0x84_B4D0_6262_82B2_4CA6_B3F6_7DC4_9000_0003_0001_0003
    ensures acc + rest
      == front + (ToBits(2, 3) + (ToBits(1, 15) + (SELECTOR + (EVEN_TABLE + (SKEW_TABLE + rest)))))
    ensures Value(acc) == 0x21_2D34_1898_A0AC_9329_ACFD_9F71_2400_0000_C000_4000_D000_1840_37A4
  {
    hide Value, ToBits;
    Constants();
    FieldValues();
    var r14 := SKEW_TABLE + rest;
    var r13 := EVEN_TABLE + r14;
    var r12 := SELECTOR + r13;
    var r11 := ToBits(1, 15) + r12;
    acc := Peel(front, 0x84_B4D0_6262_82B2_4CA6_B3F6_7DC4_9000_0003_0001_0003, ToBits(2, 3), 2, 3, r11);
    acc := Peel(acc, 0x425_A683_1314_1592_6535_9FB3_EE24_8000_0018_0008_001A, ToBits(1, 15), 1, 15, r12);
    acc := Peel(acc, 0x212_D341_898A_0AC9_329A_CFD9_F712_4000_000C_0004_000D_0001, SELECTOR, 2, 2, r13);
    acc := Peel(acc, 0x84B_4D06_2628_2B24_CA6B_3F67_DC49_0000_0030_0010_0034_0006, EVEN_TABLE, 0x20, 9, r14);
    acc := Peel(acc, 0x10_969A_0C4C_5056_4994_D67E_CFB8_9200_0000_6000_2000_6800_0C20, SKEW_TABLE, 0x37A4, 17, rest);
  }

  lemma FieldsNumber()
    ensures Value(Fields()) == NUMBER && |Fields()| == 8 * |FILE|
  {
    hide Value, ToBits;
    Constants();
    FieldValues();
    var r18: seq<bit> := [0];
    var r17 := ToBits(CRC, 32) + r18;
    var r16 := ToBits(EOS_MAGIC, 48) + r17;
    var r15 := SYMBOLS + r16;
    var acc := FirstFields(ToBits(2, 3) + (ToBits(1, 15) + (SELECTOR + (EVEN_TABLE + (SKEW_TABLE + r15)))));
    acc := NextFields(acc, r15);
    acc := Peel(acc, 0x21_2D34_1898_A0AC_9329_ACFD_9F71_2400_0000_C000_4000_D000_1840_37A4, SYMBOLS, 0x97, 8, r16);
    acc := Peel(acc, 0x212D_3418_98A0_AC93_29AC_FD9F_7124_0000_00C0_0040_00D0_0018_4037_A497, ToBits(EOS_MAGIC, 48),
      0x1772_4538_5090, 48, r17);
    acc := Peel(acc, 0x212D_3418_98A0_AC93_29AC_FD9F_7124_0000_00C0_0040_00D0_0018_4037_A497_1772_4538_5090,
      ToBits(CRC, 32), 0xFB3E_E248, 32, r18);
    acc := Peel(acc,
      0x212D_3418_98A0_AC93_29AC_FD9F_7124_0000_00C0_0040_00D0_0018_4037_A497_1772_4538_5090_FB3E_E248, [0], 0, 1, []);
    assert acc + [] == acc && [0] + [] == [0];
  }

  lemma FieldValues()
    ensures Value(ToBits(0x42, 8)) == 0x42 && Value(ToBits(0x5A, 8)) == 0x5A && Value(ToBits(0x68, 8)) == 0x68
    ensures Value(ToBits(0x31, 8)) == 0x31 && Value(ToBits(BLOCK_MAGIC, 48)) == 0x3141_5926_5359
    ensures Value(ToBits(CRC, 32)) == CRC && Value(ToBits(3, 24)) == 3 && Value(ToBits(2, 3)) == 2
    ensures Value(ToBits(1, 15)) == 1 && Value(ToBits(EOS_MAGIC, 48)) == 0x1772_4538_5090
  {
    hide Value, ToBits;
    FieldValue(0x42, 8);
    FieldValue(0x5A, 8);
    FieldValue(0x68, 8);
    FieldValue(0x31, 8);
    FieldValue(BLOCK_MAGIC, 48);
    FieldValue(CRC, 32);
    FieldValue(3, 24);
    FieldValue(2, 3);
    FieldValue(1, 15);
    FieldValue(EOS_MAGIC, 48);
  }

  lemma FileFields()
    ensures BytesToBits(FILE) == Fields()
  {
    hide Value, ToBits, Fields, BigEndian;
    FileNumber();
    FieldsNumber();
    BigEndianIsValue(FILE);
    ValueInjective(BytesToBits(FILE), Fields());
  }

  // ----- the fields of the block's header -----

  const LAST: seq<byte> := [0xFF, 0xFF, 0xFF, 0xFE]
  const PLAIN: seq<byte> := [0xFF, 0xFF, 0xFF, 0xFE]
  const USED: seq<byte> := [0xFE, 0xFF]
  const EVEN: seq<nat> := [2, 2, 2, 2]
  const SKEW: seq<nat> := [3, 1, 2, 3]

  function Head(): Header {
    Header(CRC, 3, USED, [1], [EVEN, SKEW])
  }

  lemma GroupAlone(flags: seq<bit>, g: nat)
    requires |flags| == 256 && g < 16 && forall b :: 0 <= b < 256 && flags[b] == 1 ==> b / 16 == g
    requires flags[16 * g..16 * g + 16] == WHICH_BYTES && g == 15
    ensures MapBits(flags) == WHICH_GROUPS + WHICH_BYTES
  {
    hide AnySet, SetGroups, GroupFlags;
    SomeByte();
    GroupsFrom(flags, 0, g);
    assert flags[0..] == flags;
    var all := GroupFlags(flags);
    forall i | 0 <= i < 16 ensures all[i] == WHICH_GROUPS[i] { FlagOf(flags, 0, g, i); }
    assert all == WHICH_GROUPS;
  }

  lemma SomeByte()
    ensures AnySet(WHICH_BYTES)
  {
    assert WHICH_BYTES[15] == 1;
  }

  /** From group `i` on, only group `g` has a flag set. */
  lemma {:induction false} GroupsFrom(flags: seq<bit>, i: nat, g: nat)
    requires |flags| == 256 && i <= 16 && g < 16 && forall b :: 0 <= b < 256 && flags[b] == 1 ==> b / 16 == g
    requires AnySet(flags[16 * g..16 * g + 16])
    ensures SetGroups(flags[16 * i..]) == if i <= g then flags[16 * g..16 * g + 16] else []
    decreases 16 - i
  {
    var rest := flags[16 * i..];
    if i < 16 {
      GroupsFrom(flags, i + 1, g);
      assert rest[..16] == flags[16 * i..16 * i + 16] && rest[16..] == flags[16 * (i + 1)..];
      if i != g {
        forall k | 0 <= k < 16 ensures rest[..16][k] != 1 { assert rest[..16][k] == flags[16 * i + k]; }
      }
    }
  }

  lemma {:induction false} FlagOf(flags: seq<bit>, i: nat, g: nat, j: nat)
    requires |flags| == 256 && i <= j < 16 && g < 16 && forall b :: 0 <= b < 256 && flags[b] == 1 ==> b / 16 == g
    requires AnySet(flags[16 * g..16 * g + 16])
    ensures |GroupFlags(flags[16 * i..])| == 16 - i
    ensures GroupFlags(flags[16 * i..])[j - i] == if j == g then 1 else 0
    decreases 16 - i
  {
    var rest := flags[16 * i..];
    assert rest[..16] == flags[16 * i..16 * i + 16] && rest[16..] == flags[16 * (i + 1)..];
    if i < j {
      FlagOf(flags, i + 1, g, j);
    } else if i != g {
      forall k | 0 <= k < 16 ensures rest[..16][k] != 1 { assert rest[..16][k] == flags[16 * i + k]; }
    }
  }

  lemma MapOfUsed()
    ensures MapBits(Flags(USED)) == WHICH_GROUPS + WHICH_BYTES && Listed(Flags(USED)) == USED
  {
    var f := Flags(USED);
    var own := f[240..];
    assert own == WHICH_BYTES;
    GroupAlone(f, 15);
    ListedAscends(f);
    var l := Listed(f);
    assert 0xFE in l && 0xFF in l;
    OnlyTwo(l, 0xFE, 0xFF);
  }

  lemma OnlyTwo(l: seq<byte>, a: byte, b: byte)
    requires a < b && a in l && b in l && forall x :: x in l ==> x == a || x == b
    requires forall i, j :: 0 <= i < j < |l| ==> l[i] < l[j]
    ensures l == [a, b]
  {
    var i :| 0 <= i < |l| && l[i] == a;
    var j :| 0 <= j < |l| && l[j] == b;
    assert l[0] in l && l[1] in l && l[|l| - 1] in l;
    assert |l| == 2;
  }

  lemma TablesOfLengths()
    ensures TablesBits([EVEN, SKEW]) == EVEN_TABLE + SKEW_TABLE
  {
    hide TableBits;
    EvenTable();
    SkewTable();
    assert [EVEN, SKEW][1..] == [SKEW] && [SKEW][1..] == [];
    assert TablesBits([SKEW]) == SKEW_TABLE + [] && SKEW_TABLE + [] == SKEW_TABLE;
  }

  lemma EvenTable()
    ensures TableBits(EVEN) == EVEN_TABLE
  {
    hide LengthsBits, LengthBits, ToBits;
    Steps();
    var none: seq<nat> := [];
    assert [2] + none == [2] && [2] + [2] == [2, 2] && [2] + [2, 2] == [2, 2, 2] && [2] + [2, 2, 2] == EVEN;
    var rest := NextDelta(2, 2, none, []);
    rest := NextDelta(2, 2, [2], rest);
    rest := NextDelta(2, 2, [2, 2], rest);
    rest := NextDelta(2, 2, [2, 2, 2], rest);
  }

  lemma SkewTable()
    ensures TableBits(SKEW) == SKEW_TABLE
  {
    hide LengthsBits, LengthBits, ToBits;
    Steps();
    var none: seq<nat> := [];
    assert [3] + none == [3] && [2] + [3] == [2, 3] && [1] + [2, 3] == [1, 2, 3] && [3] + [1, 2, 3] == SKEW;
    var rest := NextDelta(2, 3, none, []);
    rest := NextDelta(1, 2, [3], rest);
    rest := NextDelta(3, 1, [2, 3], rest);
    rest := NextDelta(3, 3, [1, 2, 3], rest);
  }

  /** One length in front of the others. */
  lemma NextDelta(curr: nat, l: nat, lens: seq<nat>, bits: seq<bit>) returns (more: seq<bit>)
    requires lens == [] ==> bits == []
    requires lens != [] ==> LengthsBits(lens, l) == bits
    ensures more == LengthBits(curr, l) + bits == LengthsBits([l] + lens, curr)
  {
    assert ([l] + lens)[1..] == lens;
    more := LengthBits(curr, l) + bits;
  }

  lemma Steps()
    ensures LengthBits(2, 2) == [0] && LengthBits(3, 3) == [0] && LengthBits(3, 1) == [1, 1, 1, 1, 0]
    ensures LengthBits(1, 2) == [1, 0, 0] && LengthBits(2, 3) == [1, 0, 0]
    ensures ToBits(2, 5) == [0, 0, 0, 1, 0] && ToBits(3, 5) == [0, 0, 0, 1, 1]
  {
    assert LengthBits(1, 1) == [0] && LengthBits(2, 1) == [1, 1, 0];
    assert ToBits(0, 3) == [0, 0, 0];
    assert ToBits(1, 4) == [0, 0, 0, 1];
  }

  lemma SelectorAlone()
    ensures 1 in Identity(2) && SelectorBits([1], Identity(2)) == SELECTOR
  {
    hide SelectorBits, IndexOf, Identity;
    var pos := Identity(2);
    assert pos[0] == 0 && pos[1] == 1;
    SecondPlace(pos);
    OneSelector(pos);
  }

  lemma SecondPlace(pos: seq<nat>)
    requires |pos| == 2 && pos[0] == 0 && pos[1] == 1
    ensures 1 in pos && IndexOf(pos, 1) == 1
  {
  }

  lemma OneSelector(pos: seq<nat>)
    requires 1 in pos && IndexOf(pos, 1) == 1
    ensures SelectorBits([1], pos) == SELECTOR
  {
    hide IndexOf;
    assert [1][1..] == [] && Ones(1) == [1];
  }

  lemma HeadFields()
    ensures Writable(Head())
    ensures HeadBits(Head()) == ToBits(CRC, 32) + ([0] + (ToBits(3, 24) + ((WHICH_GROUPS + WHICH_BYTES)
      + (ToBits(2, 3) + (ToBits(1, 15) + (SELECTOR + (EVEN_TABLE + SKEW_TABLE)))))))
  {
    hide ToBits, MapBits, TablesBits, SelectorBits, Flags, Listed;
    MapOfUsed();
    TablesOfLengths();
    SelectorAlone();
    IdentityHas([1], 2);
  }

  // ----- its symbols -----

  const SYMS: seq<nat> := [2, 1, 2, 3]

  lemma LengthsFine()
    ensures Prefixable(EVEN, ENCODE_MAX) && Prefixable(SKEW, ENCODE_MAX)
  {
    hide Pow2, Sum;
    Powers();
    assert Shares(EVEN, ENCODE_MAX) == [0x8000, 0x8000, 0x8000, 0x8000];
    assert Shares(SKEW, ENCODE_MAX) == [0x4000, 0x1_0000, 0x8000, 0x4000];
    SumOfFour(Shares(EVEN, ENCODE_MAX));
    SumOfFour(Shares(SKEW, ENCODE_MAX));
  }

  lemma Powers()
    ensures Pow2(14) == 0x4000 && Pow2(15) == 0x8000 && Pow2(16) == 0x1_0000 && Pow2(17) == 0x2_0000
  {
    var n := 15;
    Pow2Words(n);
    assert Pow2(n) == 2 * Pow2(n - 1) && Pow2(n + 1) == 2 * Pow2(n) && Pow2(n + 2) == 2 * Pow2(n + 1);
  }

  lemma SumOfFour(v: seq<nat>)
    requires |v| == 4
    ensures Sum(v) == v[0] + v[1] + v[2] + v[3]
  {
    assert v[..3][..2] == v[..2] && v[..2][..1] == v[..1] && v[..1][..0] == [];
    assert Sum(v[..1]) == v[0];
    assert Sum(v[..2]) == v[0] + v[1];
    assert Sum(v[..3]) == v[0] + v[1] + v[2];
  }

  lemma OneMoreLength(lens: seq<nat>, x: nat, l: nat)
    ensures CountLen(lens + [x], l) == CountLen(lens, l) + if x == l then 1 else 0
  {
    assert (lens + [x])[..|lens|] == lens;
  }

  lemma SkewCounts(l: nat)
    ensures CountLen([3], l) == if l == 3 then 1 else 0
    ensures CountLen([3, 1], l) == if l == 1 || l == 3 then 1 else 0
    ensures CountLen([3, 1, 2], l) == if 1 <= l <= 3 then 1 else 0
    ensures CountLen(SKEW, l) == if l == 1 || l == 2 then 1 else if l == 3 then 2 else 0
  {
    hide CountLen;
    NoLengths(l);
    OneMoreLength([], 3, l);
    OneMoreLength([3], 1, l);
    OneMoreLength([3, 1], 2, l);
    OneMoreLength([3, 1, 2], 3, l);
    assert [] + [3] == [3] && [3] + [1] == [3, 1] && [3, 1] + [2] == [3, 1, 2] && [3, 1, 2] + [3] == SKEW;
  }

  lemma NoLengths(l: nat)
    ensures CountLen([], l) == 0
  {
  }

  lemma SkewCodes()
    ensures CodeBits(SKEW, 1) == [0] && CodeBits(SKEW, 2) == [1, 0] && CodeBits(SKEW, 3) == [1, 1, 1]
  {
    hide CountLen, ToBits;
    SkewCounts(1);
    SkewCounts(2);
    SkewCounts(3);
    SkewEnds();
    assert SKEW[..1] == [3] && SKEW[..2] == [3, 1] && SKEW[..3] == [3, 1, 2];
    assert Code(SKEW, 1) == 0 && Code(SKEW, 2) == 2 && Code(SKEW, 3) == 7;
    SmallBits();
  }

  lemma SkewEnds()
    ensures EndCode(SKEW, 0) == 0 && EndCode(SKEW, 1) == 1 && EndCode(SKEW, 2) == 3
  {
    hide CountLen;
    SkewCounts(1);
    SkewCounts(2);
  }

  lemma SmallBits()
    ensures ToBits(0, 1) == [0] && ToBits(2, 2) == [1, 0] && ToBits(7, 3) == [1, 1, 1]
  {
    assert ToBits(1, 1) == [1];
    assert ToBits(3, 2) == [1, 1];
  }

  lemma SymbolsAreCoded()
    ensures BlockWritten.Coded(SYMS, [EVEN, SKEW], [1]) && SymbolBits(SYMS, [EVEN, SKEW], [1], 0) == SYMBOLS
  {
    hide CodeBits, Prefixable;
    LengthsFine();
    SkewCodes();
    var t := [EVEN, SKEW];
    assert SymbolBits(SYMS, t, [1], 4) == [];
    assert SymbolBits(SYMS, t, [1], 3) == CodeBits(SKEW, 3) + [];
    assert SymbolBits(SYMS, t, [1], 2) == CodeBits(SKEW, 2) + CodeBits(SKEW, 3);
    assert SymbolBits(SYMS, t, [1], 1) == CodeBits(SKEW, 1) + (CodeBits(SKEW, 2) + CodeBits(SKEW, 3));
  }

  lemma SymbolsDecode()
    ensures Decoded(Fresh(Head()), SYMS, 2, 100_000) == Ok(LAST)
  {
    var n, size := 2, 100_000;
    var p0 := Fresh(Head());
    var o0 := Symbol(p0, 2, n, size);
    assert Repeat(0xFE, 0) == [] && o0.More? && o0.next.bytes == [0xFF] && o0.next.list[0] == 0xFF
      && o0.next.list[1] == 0xFE;
    var o1 := Symbol(o0.next, 1, n, size);
    assert Pow2(0) == 1;
    assert o1.More? && o1.next.run == 2 && o1.next.bytes == [0xFF] && o1.next.list == o0.next.list;
    assert Repeat(0xFF, 2) == [0xFF, 0xFF];
    var o2 := Symbol(o1.next, 2, n, size);
    assert o2.More? && o2.next.run == 0 && o2.next.bytes == [0xFF] + [0xFF, 0xFF] + [0xFE];
    assert Symbol(o2.next, 3, n, size) == Stop(LAST);
    hide Symbol;
    assert SYMS[1..] == [1, 2, 3] && [1, 2, 3][1..] == [2, 3] && [2, 3][1..] == [3];
    assert Decoded(o2.next, [3], n, size) == Ok(LAST);
    assert Decoded(o1.next, [2, 3], n, size) == Ok(LAST);
    assert Decoded(o0.next, [1, 2, 3], n, size) == Ok(LAST);
  }

  // ----- what the file decodes to -----

  lemma BodyIs()
    ensures Writable(Head()) && BlockWritten.Coded(SYMS, Head().tables, Head().selectors)
    ensures Body() == HeadBits(Head()) + (SymbolBits(SYMS, Head().tables, Head().selectors, 0) + (EndBits(CRC) + [0]))
  {
    hide ToBits, HeadBits, SymbolBits, BlockWritten.Coded, Writable;
    HeadFields();
    SymbolsAreCoded();
    var t := Tail();
    Associate(ToBits(EOS_MAGIC, 48), ToBits(CRC, 32), [0]);
    var a, b, c, d := ToBits(CRC, 32), [0], ToBits(3, 24), WHICH_GROUPS + WHICH_BYTES;
    var e, f, g, h := ToBits(2, 3), ToBits(1, 15), SELECTOR, EVEN_TABLE + SKEW_TABLE;
    Associate(EVEN_TABLE, SKEW_TABLE, t);
    Associate(g, h, t);
    Associate(f, g + h, t);
    Associate(e, f + (g + h), t);
    Associate(WHICH_GROUPS, WHICH_BYTES, e + (f + (g + (h + t))));
    Associate(d, e + (f + (g + h)), t);
    Associate(c, d + (e + (f + (g + h))), t);
    Associate(b, c + (d + (e + (f + (g + h)))), t);
    Associate(a, b + (c + (d + (e + (f + (g + h))))), t);
  }

  lemma PlainIs()
    ensures Walkable(Prepared(CRC, 3, LAST)) && Plain(Prepared(CRC, 3, LAST)) == PLAIN
  {
    hide Expand, IsTransform, Inverse;
    var rows := [3, 2, 1, 0];
    LastIs(rows);
    InverseTransform(PLAIN, rows, LAST, 3);
    Expanded();
  }

  lemma LastIs(rows: seq<nat>)
    requires rows == [3, 2, 1, 0]
    ensures IsTransform(PLAIN, rows, LAST, 3)
  {
    hide Rotations, SortedRows;
    RowsAre(rows);
    RowsInOrder(Rotations(PLAIN, rows));
    assert rows[0] == 3 && rows[1] == 2 && rows[2] == 1 && rows[3] == 0;
  }

  lemma RowsAre(rows: seq<nat>)
    requires rows == [3, 2, 1, 0]
    ensures Rotations(PLAIN, rows) == [[0xFE, 0xFF, 0xFF, 0xFF], [0xFF, 0xFE, 0xFF, 0xFF], [0xFF, 0xFF, 0xFE, 0xFF],
      [0xFF, 0xFF, 0xFF, 0xFE]]
  {
    var r := Rotations(PLAIN, rows);
    assert r[0] == [0xFE, 0xFF, 0xFF, 0xFF] && r[1] == [0xFF, 0xFE, 0xFF, 0xFF];
    assert r[2] == [0xFF, 0xFF, 0xFE, 0xFF] && r[3] == [0xFF, 0xFF, 0xFF, 0xFE];
  }

  lemma RowsInOrder(r: seq<seq<byte>>)
    requires r == [[0xFE, 0xFF, 0xFF, 0xFF], [0xFF, 0xFE, 0xFF, 0xFF], [0xFF, 0xFF, 0xFE, 0xFF],
      [0xFF, 0xFF, 0xFF, 0xFE]]
    ensures SortedRows(r)
  {
    var a, b := 0xFE, 0xFF;
    assert LexLe([a, b], [b, a]) && LexLe([a, b, b], [b, a, b]) && LexLe([a, b, b], [b, b, a]) && LexLe([b, a], [b, b]);
    assert LexLe(r[0], r[1]) && LexLe(r[0], r[2]) && LexLe(r[0], r[3]) && LexLe(r[1], r[2]) && LexLe(r[1], r[3])
      && LexLe(r[2], r[3]);
  }

  lemma Expanded()
    ensures Expand(START, PLAIN) == PLAIN
  {
    var a: seq<byte>, b: seq<byte> := [0xFF, 0xFF, 0xFF], [0xFE];
    assert a == Repeat(0xFF, 3) && b == Repeat(0xFE, 1) && PLAIN == a + b;
    ExpandRun(START, 0xFF, 3);
    ExpandRun(Run(0xFF, 3), 0xFE, 1);
    ExpandAppend(START, a, b);
  }

  lemma FileDecodesTo()
    ensures DecodeFile(FILE) == Ok(PLAIN)
  {
    hide ToBits, BytesToBits, HeadBits, SymbolBits, BlockWritten.Coded, Writable, Decoded, ParseBlock, Plain,
         Checksum, Tail, Body, XorWords,
         DecodeAll, HeaderMove, ReadBits;
    FileFields();
    BodyIs();
    SymbolsDecode();
    PlainIs();
    ChecksumIs();
    var m, t := ToBits(BLOCK_MAGIC, 48), EndBits(CRC) + [0];
    var b := SymbolBits(SYMS, Head().tables, Head().selectors, 0);
    BodyParses(Head(), SYMS, LAST, 100_000, t);
    MagicParses(BLOCK_MAGIC, Body());
    BlockChecked(m + Body(), Machine(InBlock, 100_000, 0), Prepared(CRC, 3, LAST), |HeadBits(Head())| + |b|);
    Front();
    CombineNone();
    BehindBlock(m, HeadBits(Head()), b, t);
    RoundTrips.EndDecodes(CRC, 100_000, 1);
    OneZero();
    assert PLAIN + [] == PLAIN;
  }

  lemma {:induction false} XorSelf(a: nat)
    ensures Xor(a, a) == 0
  {
    if a != 0 { XorSelf(a / 2); }
  }

  lemma Shift(c: word, k: nat)
    requires c < 0x8000_0000
    ensures TableStep(c, k + 1) == TableStep(2 * c, k)
  {
  }

  lemma Entries()
    ensures TableEntry(0) == 0 && TableEntry(1) == 0x04C1_1DB7
  {
    hide TableStep;
    Shift(0, 7);
    Shift(0, 6);
    Shift(0, 5);
    Shift(0, 4);
    Shift(0, 3);
    Shift(0, 2);
    Shift(0, 1);
    Shift(0, 0);
    Shift(0x0100_0000, 7);
    Shift(0x0200_0000, 6);
    Shift(0x0400_0000, 5);
    Shift(0x0800_0000, 4);
    Shift(0x1000_0000, 3);
    Shift(0x2000_0000, 2);
    Shift(0x4000_0000, 1);
    LastShift();
  }

  lemma LastShift()
    ensures TableStep(0, 0) == 0 && TableStep(0x8000_0000, 1) == 0x04C1_1DB7
  {
  }

  lemma ChecksumIs()
    ensures Checksum(PLAIN) == CRC
  {
    hide TableEntry, Update, Xor;
    Entries();
    XorSelf(0xFF);
    Evens(0x7F);
    Zero(0xFFFF_FFFF, 0xFF, 0xFF);
    Zero(0xFFFF_FF00, 0xFF, 0xFF);
    Zero(0xFFFF_0000, 0xFF, 0xFF);
    Zero(0xFF00_0000, 0xFF, 0xFE);
    assert PLAIN[1..] == [0xFF, 0xFF, 0xFE] && PLAIN[1..][1..] == [0xFF, 0xFE] && PLAIN[1..][1..][1..] == [0xFE];
    FourBytes(INIT, PLAIN);
  }

  lemma FourBytes(c: word, data: seq<byte>)
    requires |data| == 4
    ensures Fold(c, data) == Update(Update(Update(Update(c, data[0]), data[1]), data[2]), data[3])
  {
    hide Update, Fold;
    var d := Update(c, data[0]);
    var e := Update(d, data[1]);
    var f := Update(e, data[2]);
    assert data[1..][1..] == data[2..] && data[2..][1..] == data[3..] && data[3..][1..] == [];
    FoldOne(c, data);
    FoldOne(d, data[1..]);
    FoldOne(e, data[2..]);
    FoldOne(f, data[3..]);
    FoldNone(Update(f, data[3]));
  }

  lemma FoldOne(c: word, data: seq<byte>)
    requires data != []
    ensures Fold(c, data) == Fold(Update(c, data[0]), data[1..])
  {
  }

  lemma FoldNone(c: word)
    ensures Fold(c, []) == c
  {
  }

  lemma Evens(k: nat)
    ensures Xor(2 * k + 1, 2 * k) == 1
  {
    hide Xor;
    XorSelf(k);
    XorStep(2 * k + 1, 2 * k);
  }

  /** A step whose table entry is the first or the second, and which has only zero bits on one side. */
  lemma Zero(c: word, top: byte, b: byte)
    requires c / 0x100_0000 == top && (Xor(top, b) == 0 || (Xor(top, b) == 1 && (c * 256) % U32 == 0))
    ensures Update(c, b) == if Xor(top, b) == 0 then (c * 256) % U32 else 0x04C1_1DB7
  {
    Entries();
    hide TableEntry;
  }

  lemma BehindBlock(m: seq<bit>, a: seq<bit>, b: seq<bit>, t: seq<bit>)
    requires |m| == 48
    ensures (m + (a + (b + t)))[48 + (|a| + |b|)..] == t
  {
  }

  lemma CombineNone()
    ensures Combine(0, CRC) == CRC
  {
  }

  lemma Front()
    ensures DecodeAll(Fields(), INITIAL) == DecodeAll(ToBits(BLOCK_MAGIC, 48) + Body(), Machine(InBlock, 100_000, 0))
  {
    hide ToBits, DecodeAll, HeaderMove, Body, HeaderBits;
    var rest := ToBits(BLOCK_MAGIC, 48) + Body();
    FieldsNumber();
    HeaderInFront(rest);
    HeaderMoves(1, rest);
    AfterHeader(HeaderBits(1), rest, 1);
  }

  lemma HeaderInFront(rest: seq<bit>)
    ensures ToBits(0x42, 8) + (ToBits(0x5A, 8) + (ToBits(0x68, 8) + (ToBits(0x31, 8) + rest))) == HeaderBits(1) + rest
    ensures |HeaderBits(1)| == 32
  {
    hide ToBits;
    var a, b, c, d := ToBits(0x42, 8), ToBits(0x5A, 8), ToBits(0x68, 8), ToBits(0x31, 8);
    Associate(c, d, rest);
    Associate(b, c + d, rest);
    Associate(a, b + (c + d), rest);
  }

  lemma OneZero()
    ensures Zeros(1) == [0]
  {
  }
}
