/**
 The examples of RFC 8439 for the ChaCha20 block function and for Poly1305, computed step by step: the
 state after every fourth round and the sums, and the blocks, the values after each and the tag.
 */
module CipherVectors {
  import opened Basics
  import opened LittleEndian
  import opened ModArith
  import opened ChaCha20
  import opened Poly1305
  import opened Poly1305Tag

  // ---------- the block function, section 2.3.2 ----------

  /** The state before the first round and after every fourth one. */
  const START: seq<Word> :=
    [0x6170_7865, 0x3320_646e, 0x7962_2d32, 0x6b20_6574, 0x0302_0100, 0x0706_0504, 0x0b0a_0908, 0x0f0e_0d0c,
     0x1312_1110, 0x1716_1514, 0x1b1a_1918, 0x1f1e_1d1c, 0x0000_0001, 0x0900_0000, 0x4a00_0000, 0x0000_0000]

  const AFTER_4: seq<Word> :=
    [0xcf1a_7584, 0x0489_27ec, 0x5405_1fda, 0xc244_ff28, 0x901d_2f40, 0x7974_b81c, 0x378d_cfb4, 0xcd47_fd0e,
     0x2daf_b216, 0x27c8_9cd6, 0xcd3c_9aa0, 0x79fc_89c7, 0x10ae_f18d, 0x1621_8765, 0x68f7_6705, 0x04d6_ee22]

  const AFTER_8: seq<Word> :=
    [0x9a2d_3589, 0x0b23_fc4e, 0x40af_3b6b, 0xceea_8144, 0x0a1b_ffc6, 0x5e59_93f7, 0x9904_c2e7, 0x0d33_4718,
     0xe46c_6354, 0xc950_3229, 0x04fe_f5aa, 0xf893_3f72, 0x2687_d476, 0x54e6_5231, 0x3594_ffc5, 0x2b3b_b2ca]

  const AFTER_12: seq<Word> :=
    [0x04a3_131a, 0x6617_6309, 0x0415_bab1, 0x61b8_80a2, 0x36cc_86c7, 0xbf8a_4465, 0xf77d_d720, 0xfc0b_dc90,
     0x07d1_3aca, 0xeb0b_e9af, 0x6159_9491, 0x9185_12dc, 0x33b6_686d, 0x795c_c671, 0xc004_9972, 0xa0a8_1bde]

  const AFTER_16: seq<Word> :=
    [0xca5c_85dd, 0x93a4_f90e, 0xd9f0_df58, 0x26dd_82dd, 0x9825_63f8, 0x712a_a9ff, 0x279a_61e8, 0x970f_72bd,
     0x1c25_931a, 0x5180_bb10, 0x779c_27e7, 0x5407_7e08, 0xa9b7_51fb, 0x382f_3ce2, 0x8db1_757d, 0xcc38_080b]

  const AFTER_20: seq<Word> :=
    [0x8377_78ab, 0xe238_d763, 0xa67a_e21e, 0x5950_bb2f, 0xc4f2_d0c7, 0xfc62_bb2f, 0x8fa0_18fc, 0x3f5e_c7b7,
     0x3352_71c2, 0xf294_89f3, 0xeabd_a8fc, 0x82e4_6ebd, 0xd19c_12b4, 0xb04e_16de, 0x9e83_d0cb, 0x4e3c_50a2]

  const BLOCK: seq<Word> :=
    [0xe4e7_f110, 0x1559_3bd1, 0x1fdd_0f50, 0xc471_20a3, 0xc7f4_d1c7, 0x0368_c033, 0x9aaa_2204, 0x4e6c_d4c3,
     0x4664_82d2, 0x09aa_9f07, 0x05d7_c214, 0xa202_8bd9, 0xd19c_12b5, 0xb94e_16de, 0xe883_d0cb, 0x4e3c_50a2]

  /** A column round on all words at once. */
  function Columns(s: seq<Word>): (r: seq<Word>)
    requires |s| == 16
    ensures |r| == 16
  {
    var p, q := QuadAt(s, 0, 4, 8, 12), QuadAt(s, 1, 5, 9, 13);
    var t, u := QuadAt(s, 2, 6, 10, 14), QuadAt(s, 3, 7, 11, 15);
    [p.a, q.a, t.a, u.a, p.b, q.b, t.b, u.b, p.c, q.c, t.c, u.c, p.d, q.d, t.d, u.d]
  }

  function Diagonals(s: seq<Word>): (r: seq<Word>)
    requires |s| == 16
    ensures |r| == 16
  {
    var p, q := QuadAt(s, 0, 5, 10, 15), QuadAt(s, 1, 6, 11, 12);
    var t, u := QuadAt(s, 2, 7, 8, 13), QuadAt(s, 3, 4, 9, 14);
    [p.a, q.a, t.a, u.a, u.b, p.b, q.b, t.b, t.c, u.c, p.c, q.c, q.d, t.d, u.d, p.d]
  }

  /** `r` is `s` with four words replaced. */
  ghost predicate IsPut(s: seq<Word>, r: seq<Word>, a: nat, b: nat, c: nat, d: nat, q: Quad) {
    && |s| == |r| == 16 && a < 16 && b < 16 && c < 16 && d < 16
    && r[a] == q.a && r[b] == q.b && r[c] == q.c && r[d] == q.d
    && forall i :: 0 <= i < 16 && i != a && i != b && i != c && i != d ==> r[i] == s[i]
  }

  lemma {:induction false} QuarterPuts(s: seq<Word>, a: nat, b: nat, c: nat, d: nat)
    requires |s| == 16 && a < 4 <= b < 8 <= c < 12 <= d < 16
    ensures IsPut(s, QuarterAt(s, a, b, c, d), a, b, c, d, Quarter(Quad(s[a], s[b], s[c], s[d])))
  {
  }

  lemma {:induction false} FourColumns(
    s: seq<Word>, s1: seq<Word>, s2: seq<Word>, s3: seq<Word>, s4: seq<Word>, p: Quad, q: Quad, t: Quad, u: Quad)
    requires IsPut(s, s1, 0, 4, 8, 12, p) && IsPut(s1, s2, 1, 5, 9, 13, q)
    requires IsPut(s2, s3, 2, 6, 10, 14, t) && IsPut(s3, s4, 3, 7, 11, 15, u)
    ensures s4 == [p.a, q.a, t.a, u.a, p.b, q.b, t.b, u.b, p.c, q.c, t.c, u.c, p.d, q.d, t.d, u.d]
  {
  }

  lemma {:induction false} FourDiagonals(
    s: seq<Word>, s1: seq<Word>, s2: seq<Word>, s3: seq<Word>, s4: seq<Word>, p: Quad, q: Quad, t: Quad, u: Quad)
    requires IsPut(s, s1, 0, 5, 10, 15, p) && IsPut(s1, s2, 1, 6, 11, 12, q)
    requires IsPut(s2, s3, 2, 7, 8, 13, t) && IsPut(s3, s4, 3, 4, 9, 14, u)
    ensures s4 == [p.a, q.a, t.a, u.a, u.b, p.b, q.b, t.b, t.c, u.c, p.c, q.c, q.d, t.d, u.d, p.d]
  {
  }

  /** The quarter rounds of a round work on different words. */
  lemma {:induction false} ColumnsAre(s: seq<Word>)
    requires |s| == 16
    ensures Round(s, 0) == Columns(s)
  {
    var s1 := LaneAt(s, 0, 0);
    var s2 := LaneAt(s1, 1, 0);
    var s3 := LaneAt(s2, 2, 0);
    ColumnPuts(s, 0);
    ColumnPuts(s1, 1);
    ColumnPuts(s2, 2);
    ColumnPuts(s3, 3);
    FourColumns(s, s1, s2, s3, LaneAt(s3, 3, 0), QuadAt(s, 0, 4, 8, 12), QuadAt(s1, 1, 5, 9, 13),
                QuadAt(s2, 2, 6, 10, 14), QuadAt(s3, 3, 7, 11, 15));
  }

  function QuadAt(s: seq<Word>, a: nat, b: nat, c: nat, d: nat): Quad
    requires |s| == 16 && a < 16 && b < 16 && c < 16 && d < 16
  {
    Quarter(Quad(s[a], s[b], s[c], s[d]))
  }

  lemma {:induction false} ColumnPuts(s: seq<Word>, i: nat)
    requires |s| == 16 && i < 4
    ensures IsPut(s, LaneAt(s, i, 0), i, 4 + i, 8 + i, 12 + i, QuadAt(s, i, 4 + i, 8 + i, 12 + i))
  {
    ColumnLane(s, i);
    QuarterPuts(s, i, 4 + i, 8 + i, 12 + i);
  }

  /** Four lanes of which each works on words that the ones before left alone. */
  lemma {:induction false} DiagonalLanes(
    f: Quad -> Quad, s: seq<Word>, s1: seq<Word>, s2: seq<Word>, s3: seq<Word>, s4: seq<Word>)
    requires |s| == |s1| == |s2| == |s3| == 16
    requires IsPut(s, s1, 0, 5, 10, 15, f(Quad(s[0], s[5], s[10], s[15])))
    requires IsPut(s1, s2, 1, 6, 11, 12, f(Quad(s1[1], s1[6], s1[11], s1[12])))
    requires IsPut(s2, s3, 2, 7, 8, 13, f(Quad(s2[2], s2[7], s2[8], s2[13])))
    requires IsPut(s3, s4, 3, 4, 9, 14, f(Quad(s3[3], s3[4], s3[9], s3[14])))
    ensures var p, q := f(Quad(s[0], s[5], s[10], s[15])), f(Quad(s[1], s[6], s[11], s[12]));
            var t, u := f(Quad(s[2], s[7], s[8], s[13])), f(Quad(s[3], s[4], s[9], s[14]));
            s4 == [p.a, q.a, t.a, u.a, u.b, p.b, q.b, t.b, t.c, u.c, p.c, q.c, q.d, t.d, u.d, p.d]
  {
    assert Quad(s1[1], s1[6], s1[11], s1[12]) == Quad(s[1], s[6], s[11], s[12]);
    assert Quad(s2[2], s2[7], s2[8], s2[13]) == Quad(s[2], s[7], s[8], s[13]);
    assert Quad(s3[3], s3[4], s3[9], s3[14]) == Quad(s[3], s[4], s[9], s[14]);
    FourDiagonals(s, s1, s2, s3, s4, f(Quad(s[0], s[5], s[10], s[15])), f(Quad(s[1], s[6], s[11], s[12])),
                  f(Quad(s[2], s[7], s[8], s[13])), f(Quad(s[3], s[4], s[9], s[14])));
  }

  ghost predicate IsQuarter(f: Quad -> Quad) {
    forall q {:trigger Quarter(q)} :: f(q) == Quarter(q)
  }

  /** The quarter round, by a name that proofs about the order of the lanes need not look into. */
  ghost function Named(): (f: Quad -> Quad)
    ensures IsQuarter(f)
  {
    assert IsQuarter(q => Quarter(q));
    var f: Quad -> Quad :| IsQuarter(f);
    f
  }

  lemma {:induction false} NamedPuts(s: seq<Word>, a: nat, b: nat, c: nat, d: nat)
    requires |s| == 16 && a < 4 <= b < 8 <= c < 12 <= d < 16
    ensures IsPut(s, QuarterAt(s, a, b, c, d), a, b, c, d, Named()(Quad(s[a], s[b], s[c], s[d])))
  {
    QuarterPuts(s, a, b, c, d);
    assert Named()(Quad(s[a], s[b], s[c], s[d])) == Quarter(Quad(s[a], s[b], s[c], s[d]));
  }

  lemma {:induction false} DiagonalPuts(s: seq<Word>)
    returns (s1: seq<Word>, s2: seq<Word>, s3: seq<Word>, s4: seq<Word>)
    requires |s| == 16
    ensures |s1| == |s2| == |s3| == 16 && s4 == Round(s, 1)
    ensures IsPut(s, s1, 0, 5, 10, 15, Named()(Quad(s[0], s[5], s[10], s[15])))
    ensures IsPut(s1, s2, 1, 6, 11, 12, Named()(Quad(s1[1], s1[6], s1[11], s1[12])))
    ensures IsPut(s2, s3, 2, 7, 8, 13, Named()(Quad(s2[2], s2[7], s2[8], s2[13])))
    ensures IsPut(s3, s4, 3, 4, 9, 14, Named()(Quad(s3[3], s3[4], s3[9], s3[14])))
  {
    RoundIs(s);
    s1 := QuarterAt(s, 0, 5, 10, 15);
    s2 := QuarterAt(s1, 1, 6, 11, 12);
    s3 := QuarterAt(s2, 2, 7, 8, 13);
    s4 := QuarterAt(s3, 3, 4, 9, 14);
    NamedPuts(s, 0, 5, 10, 15);
    NamedPuts(s1, 1, 6, 11, 12);
    NamedPuts(s2, 2, 7, 8, 13);
    NamedPuts(s3, 3, 4, 9, 14);
  }

  lemma {:induction false} DiagonalsAre(s: seq<Word>)
    requires |s| == 16
    ensures Round(s, 1) == Diagonals(s)
  {
    var s1, s2, s3, s4 := DiagonalPuts(s);
    DiagonalLanes(Named(), s, s1, s2, s3, s4);
  }

  lemma {:induction false} RoundIs(s: seq<Word>)
    requires |s| == 16
    ensures Round(s, 1)
         == QuarterAt(QuarterAt(QuarterAt(QuarterAt(s, 0, 5, 10, 15), 1, 6, 11, 12), 2, 7, 8, 13), 3, 4, 9, 14)
  {
    var s1 := QuarterAt(s, 0, 5, 10, 15);
    var s2 := QuarterAt(s1, 1, 6, 11, 12);
    var s3 := QuarterAt(s2, 2, 7, 8, 13);
    DiagonalLane(s, 0, 5, 10, 15);
    DiagonalLane(s1, 1, 6, 11, 12);
    DiagonalLane(s2, 2, 7, 8, 13);
    DiagonalLane(s3, 3, 4, 9, 14);
  }

  lemma {:induction false} FourRounds(s: seq<Word>, t: seq<Word>, u: seq<Word>, n: nat)
    requires |s| == |t| == 16 && t == DoubleRounds(s, n) && u == Diagonals(Columns(Diagonals(Columns(t))))
    ensures u == DoubleRounds(s, n + 2)
  {
    ColumnsAre(t);
    DiagonalsAre(Columns(t));
    var next := Diagonals(Columns(t));
    assert next == DoubleRounds(s, n + 1);
    ColumnsAre(next);
    DiagonalsAre(Columns(next));
  }

  lemma {:induction false} RoundsTo4()
    ensures Diagonals(Columns(Diagonals(Columns(START)))) == AFTER_4
  {
  }

  lemma {:induction false} RoundsTo8()
    ensures Diagonals(Columns(Diagonals(Columns(AFTER_4)))) == AFTER_8
  {
  }

  lemma {:induction false} RoundsTo12()
    ensures Diagonals(Columns(Diagonals(Columns(AFTER_8)))) == AFTER_12
  {
  }

  lemma {:induction false} RoundsTo16()
    ensures Diagonals(Columns(Diagonals(Columns(AFTER_12)))) == AFTER_16
  {
  }

  lemma {:induction false} RoundsTo20()
    ensures Diagonals(Columns(Diagonals(Columns(AFTER_16)))) == AFTER_20
  {
  }

  lemma {:induction false} TwentyFrom(
    s: seq<Word>, a: seq<Word>, b: seq<Word>, c: seq<Word>, d: seq<Word>, e: seq<Word>)
    requires |s| == |a| == |b| == |c| == |d| == 16
    requires a == Diagonals(Columns(Diagonals(Columns(s)))) && b == Diagonals(Columns(Diagonals(Columns(a))))
    requires c == Diagonals(Columns(Diagonals(Columns(b)))) && d == Diagonals(Columns(Diagonals(Columns(c))))
    requires e == Diagonals(Columns(Diagonals(Columns(d))))
    ensures DoubleRounds(s, 10) == e
  {
    FourRounds(s, s, a, 0);
    FourRounds(s, a, b, 2);
    FourRounds(s, b, c, 4);
    FourRounds(s, c, d, 6);
    FourRounds(s, d, e, 8);
  }

  lemma {:induction false} TwentyRounds()
    ensures DoubleRounds(START, 10) == AFTER_20
  {
    RoundsTo4();
    RoundsTo8();
    RoundsTo12();
    RoundsTo16();
    RoundsTo20();
    TwentyFrom(START, AFTER_4, AFTER_8, AFTER_12, AFTER_16, AFTER_20);
  }

  lemma {:induction false} UpperSums()
    ensures forall i :: 0 <= i < 8 ==> Add(AFTER_20[i], START[i]) == BLOCK[i]
  {
    assert Add(AFTER_20[0], START[0]) == BLOCK[0] && Add(AFTER_20[1], START[1]) == BLOCK[1]
           && Add(AFTER_20[2], START[2]) == BLOCK[2] && Add(AFTER_20[3], START[3]) == BLOCK[3];
    assert Add(AFTER_20[4], START[4]) == BLOCK[4] && Add(AFTER_20[5], START[5]) == BLOCK[5]
           && Add(AFTER_20[6], START[6]) == BLOCK[6] && Add(AFTER_20[7], START[7]) == BLOCK[7];
  }

  lemma {:induction false} LowerSums()
    ensures forall i :: 8 <= i < 16 ==> Add(AFTER_20[i], START[i]) == BLOCK[i]
  {
    assert Add(AFTER_20[8], START[8]) == BLOCK[8] && Add(AFTER_20[9], START[9]) == BLOCK[9]
           && Add(AFTER_20[10], START[10]) == BLOCK[10] && Add(AFTER_20[11], START[11]) == BLOCK[11];
    assert Add(AFTER_20[12], START[12]) == BLOCK[12] && Add(AFTER_20[13], START[13]) == BLOCK[13]
           && Add(AFTER_20[14], START[14]) == BLOCK[14] && Add(AFTER_20[15], START[15]) == BLOCK[15];
  }

  lemma {:induction false} MixedIs(s: seq<Word>, t: seq<Word>, b: seq<Word>)
    requires |s| == |t| == |b| == 16 && DoubleRounds(s, 10) == t
    requires forall i :: 0 <= i < 16 ==> Add(t[i], s[i]) == b[i]
    ensures Mixed(s) == b
  {
  }

  /** The state and the block of section 2.3.2, as words. */
  lemma {:induction false} BlockVector()
    ensures Mixed(START) == BLOCK
  {
    TwentyRounds();
    UpperSums();
    LowerSums();
    MixedIs(START, AFTER_20, BLOCK);
  }

  /** Where the constants, the key, the counter and the nonce stand in the state. */
  lemma {:induction false} StateLayout(key: Bytes, counter: u32, nonce: Bytes)
    requires |key| == 32 && |nonce| == 12
    ensures InitialState(key, counter, nonce)[..4] == [0x6170_7865, 0x3320_646e, 0x7962_2d32, 0x6b20_6574]
    ensures forall i :: 4 <= i < 12 ==> InitialState(key, counter, nonce)[i] == ReadWord(key, 4 * (i - 4))
    ensures InitialState(key, counter, nonce)[12] == counter as Word
    ensures forall i :: 13 <= i < 16 ==> InitialState(key, counter, nonce)[i] == ReadWord(nonce, 4 * (i - 13))
  {
    KeyLayout(key, counter, nonce);
  }

  lemma {:induction false} KeyLayout(key: Bytes, counter: u32, nonce: Bytes)
    requires |key| == 32 && |nonce| == 12
    ensures InitialState(key, counter, nonce)[4..12] == ReadWords(key)
    ensures InitialState(key, counter, nonce)[13..] == ReadWords(nonce)
  {
  }

  /** Each word is written with its least significant byte first. */
  lemma {:induction false} WrittenAt(words: seq<Word>, i: nat, j: nat)
    requires i < |words| && j < 4
    ensures 4 * i + j < |WriteWords(words)|
    ensures WriteWords(words)[4 * i + j] == ShiftRight(words[i] as nat, j) % 256
  {
    if i < |words| - 1 {
      WrittenAt(words[..|words| - 1], i, j);
    } else {
      ToBytesAt(words[i] as nat, 4, j);
    }
  }

  // ---------- Poly1305, section 2.5.2 ----------

  const POLY_KEY: Bytes :=
    [0x85, 0xd6, 0xbe, 0x78, 0x57, 0x55, 0x6d, 0x33, 0x7f, 0x44, 0x52, 0xfe, 0x42, 0xd5, 0x06, 0xa8,
     0x01, 0x03, 0x80, 0x8a, 0xfb, 0x0d, 0xb2, 0xfd, 0x4a, 0xbf, 0xf6, 0xaf, 0x41, 0x49, 0xf5, 0x1b]

  /** The text "Cryptographic Forum Research Group". */
  const MESSAGE: Bytes :=
    [0x43, 0x72, 0x79, 0x70, 0x74, 0x6f, 0x67, 0x72, 0x61, 0x70, 0x68, 0x69, 0x63, 0x20, 0x46, 0x6f,
     0x72, 0x75, 0x6d, 0x20, 0x52, 0x65, 0x73, 0x65, 0x61, 0x72, 0x63, 0x68, 0x20, 0x47, 0x72, 0x6f,
     0x75, 0x70]

  const R: nat := 0x806_d540_0e52_447c_036d_5554_08be_d685

  const S: nat := 0x1bf5_4941_aff6_bf4a_fdb2_0dfb_8a80_0301

  /** One block is added and the sum multiplied, modulo the prime. */
  lemma {:induction false} NextValue(data: Bytes, r: nat, k: nat, acc: nat, c: nat)
    requires k < Chunks(|data|) && c == Coefficient(data, k) && acc == Residue(Value(data, r, k, 0), PRIME)
    ensures Residue(Value(data, r, k + 1, 0), PRIME) == (acc + c) % PRIME * r % PRIME
  {
    HornerStep(data, r, k, 0);
    var sum := (acc + c) % PRIME;
    CongMod(Value(data, r, k, 0), PRIME);
    StepCong(acc, Value(data, r, k, 0), c, r, sum, sum * r % PRIME, PRIME);
    ResidueIs(Value(data, r, k + 1, 0), PRIME, sum * r % PRIME);
  }

  lemma {:induction false} FourBytesAre(b: Bytes)
    requires |b| == 4
    ensures FromBytes(b) == b[0] as int + 0x100 * (b[1] as int) + 0x1_0000 * (b[2] as int) + 0x100_0000 * (b[3] as int)
  {
    assert b[1..][1..] == b[2..] && b[2..][1..] == b[3..] && b[3..][1..] == [];
    assert FromBytes(b[3..]) == b[3] as int + 256 * FromBytes([]);
    assert FromBytes(b[2..]) == b[2] as int + 256 * FromBytes(b[3..]);
    assert FromBytes(b[1..]) == b[1] as int + 256 * FromBytes(b[2..]);
  }

  lemma {:induction false} SixteenBytesAre(b: Bytes)
    requires |b| == 16
    ensures FromBytes(b) == FromBytes(b[..4]) + 0x1_0000_0000 * (FromBytes(b[4..8])
                            + 0x1_0000_0000 * (FromBytes(b[8..12]) + 0x1_0000_0000 * FromBytes(b[12..])))
  {
    FirstFour(b);
    FirstFour(b[4..]);
    FirstFour(b[4..][4..]);
    assert b[4..][..4] == b[4..8] && b[4..][4..] == b[8..] && b[8..][..4] == b[8..12] && b[8..][4..] == b[12..];
  }

  lemma {:induction false} FirstFour(b: Bytes)
    requires |b| >= 4
    ensures FromBytes(b) == FromBytes(b[..4]) + 0x1_0000_0000 * FromBytes(b[4..])
  {
    FromBytesAppend(b[..4], b[4..]);
    assert b == b[..4] + b[4..];
    assert Pow256(4) == 0x1_0000_0000;
  }

  /** The number of four words. */
  function Words(w0: nat, w1: nat, w2: nat, w3: nat): nat {
    w0 + 0x1_0000_0000 * (w1 + 0x1_0000_0000 * (w2 + 0x1_0000_0000 * w3))
  }

  /** Four bytes as a little-endian number. */
  function WordOf(b: Bytes, i: nat): nat
    requires i + 4 <= |b|
  {
    b[i] as int + 0x100 * (b[i + 1] as int) + 0x1_0000 * (b[i + 2] as int) + 0x100_0000 * (b[i + 3] as int)
  }

  lemma {:induction false} NumberOf(b: Bytes, w0: nat, w1: nat, w2: nat, w3: nat)
    requires |b| == 16
    requires w0 == WordOf(b, 0) && w1 == WordOf(b, 4) && w2 == WordOf(b, 8) && w3 == WordOf(b, 12)
    ensures FromBytes(b) == Words(w0, w1, w2, w3)
  {
    SixteenBytesAre(b);
    FourBytesAre(b[..4]);
    FourBytesAre(b[4..8]);
    FourBytesAre(b[8..12]);
    FourBytesAre(b[12..]);
  }

  lemma {:induction false} SecondHalf()
    ensures FromBytes(POLY_KEY[16..]) == S
  {
    var b := POLY_KEY[16..];
    assert b
        == [0x01, 0x03, 0x80, 0x8a, 0xfb, 0x0d, 0xb2, 0xfd, 0x4a, 0xbf, 0xf6, 0xaf, 0x41, 0x49, 0xf5, 0x1b];
    NumberOf(b, 0x8a80_0301, 0xfdb2_0dfb, 0xaff6_bf4a, 0x1bf5_4941);
  }

  lemma {:induction false} FirstHalf()
    ensures ClampPolyKey(FromBytes(POLY_KEY[..16])) == R
  {
    ClampIs(POLY_KEY[..16]);
    var b := ClampBytes(POLY_KEY[..16]);
    assert b
        == [0x85, 0xd6, 0xbe, 0x08, 0x54, 0x55, 0x6d, 0x03, 0x7c, 0x44, 0x52, 0x0e, 0x40, 0xd5, 0x06, 0x08];
    NumberOf(b, 0x08be_d685, 0x036d_5554, 0x0e52_447c, 0x0806_d540);
  }

  lemma {:induction false} OneBit()
    ensures Pow256(16) == 0x1_0000_0000_0000_0000_0000_0000_0000_0000
  {
    assert Pow256(4) == 0x1_0000_0000;
    assert Pow256(8) == 0x1_0000_0000 * Pow256(4);
    assert Pow256(12) == 0x1_0000_0000 * Pow256(8);
    assert Pow256(16) == 0x1_0000_0000 * Pow256(12);
  }

  const C0: nat := 0x1_6f46_2063_6968_7061_7267_6f74_7079_7243

  const C1: nat := 0x1_6f72_4720_6863_7261_6573_6552_206d_7572

  const C2: nat := 0x1_7075

  lemma {:induction false} FirstBlock()
    ensures Coefficient(MESSAGE, 0) == C0
  {
    var b := MESSAGE[0..16];
    assert Chunk(MESSAGE, 0) == b;
    assert b
        == [0x43, 0x72, 0x79, 0x70, 0x74, 0x6f, 0x67, 0x72, 0x61, 0x70, 0x68, 0x69, 0x63, 0x20, 0x46, 0x6f];
    NumberOf(b, 0x7079_7243, 0x7267_6f74, 0x6968_7061, 0x6f46_2063);
    OneBit();
  }

  lemma {:induction false} SecondBlock()
    ensures Coefficient(MESSAGE, 1) == C1
  {
    var b := MESSAGE[16..32];
    assert Chunk(MESSAGE, 1) == b;
    assert b
        == [0x72, 0x75, 0x6d, 0x20, 0x52, 0x65, 0x73, 0x65, 0x61, 0x72, 0x63, 0x68, 0x20, 0x47, 0x72, 0x6f];
    NumberOf(b, 0x206d_7572, 0x6573_6552, 0x6863_7261, 0x6f72_4720);
    OneBit();
  }

  lemma {:induction false} LastBlock()
    ensures Coefficient(MESSAGE, 2) == C2
  {
  }

  const A1: nat := 0x2_c88c_7784_9d64_ae91_47dd_eb88_e69c_83fc

  const A2: nat := 0x2_d8ad_af23_b033_7fa7_cccf_b4ea_344b_30de

  const A3: nat := 0x2_8d31_b7ca_ff94_6c77_c884_4335_369d_03a7

  lemma {:induction false} Value1()
    ensures (0 + C0) % PRIME * R % PRIME == A1
  {
    var sum := 0x1_6f46_2063_6968_7061_7267_6f74_7079_7243;
    assert 0 + C0 == 0 * PRIME + sum;
    assert sum * R == 0x2e0_ffa6_4729_9a00_1224_5577_35a7_a109 * PRIME + A1;
  }

  lemma {:induction false} Value2()
    ensures (A1 + C1) % PRIME * R % PRIME == A2
  {
    var sum := 0x37fe_bea5_05c8_20f2_ad51_50db_0709_f973;
    assert A1 + C1 == 1 * PRIME + sum;
    assert sum * R == 0x70_5d24_a5df_51f2_8ca0_6842_e53f_4ad3 * PRIME + A2;
  }

  lemma {:induction false} Value3()
    ensures (A2 + C2) % PRIME * R % PRIME == A3
  {
    var sum := 0x2_d8ad_af23_b033_7fa7_cccf_b4ea_344c_a153;
    assert A2 + C2 == 0 * PRIME + sum;
    assert sum * R == 0x5b6_3822_83cf_f877_93f9_2855_21ab_29e8 * PRIME + A3;
  }

  lemma {:induction false} ThreeBlocks(
    data: Bytes, r: nat, c0: nat, c1: nat, c2: nat, a1: nat, a2: nat, a3: nat)
    requires Chunks(|data|) == 3
    requires c0 == Coefficient(data, 0) && c1 == Coefficient(data, 1) && c2 == Coefficient(data, 2)
    requires a1 == (0 + c0) % PRIME * r % PRIME && a2 == (a1 + c1) % PRIME * r % PRIME
    requires a3 == (a2 + c2) % PRIME * r % PRIME
    ensures Residue(Polynomial(data, r), PRIME) == a3
  {
    NextValue(data, r, 0, 0, c0);
    NextValue(data, r, 1, a1, c1);
    NextValue(data, r, 2, a2, c2);
  }

  lemma {:induction false} Accumulated()
    ensures Residue(Polynomial(MESSAGE, R), PRIME) == A3
  {
    FirstBlock();
    SecondBlock();
    LastBlock();
    Value1();
    Value2();
    Value3();
    ThreeBlocks(MESSAGE, R, C0, C1, C2, A1, A2, A3);
  }

  const T: nat := 0xa927_010c_af8b_2bc2_c636_5130_c11d_06a8

  lemma {:induction false} LastSum()
    ensures Residue(A3 + S, Pow256(16)) == T
  {
    OneBit();
  }

  const TAG: Bytes :=
    [0xa8, 0x06, 0x1d, 0xc1, 0x30, 0x51, 0x36, 0xc6, 0xc2, 0x2b, 0x8b, 0xaf, 0x0c, 0x01, 0x27, 0xa9]

  lemma {:induction false} LastBytes()
    ensures ToBytes(T, 16) == TAG
  {
    NumberOf(TAG, 0xc11d_06a8, 0xc636_5130, 0xaf8b_2bc2, 0xa927_010c);
    OneBit();
    EncodesIff(T, TAG);
  }

  /** The tag of the example. */
  lemma {:induction false} TagVector()
    ensures Tag(POLY_KEY, MESSAGE) == TAG
  {
    FirstHalf();
    SecondHalf();
    TagWithIs();
  }

  lemma {:induction false} TagWithIs()
    ensures TagWith(R, S, MESSAGE) == TAG
  {
    Accumulated();
    LastSum();
    LastBytes();
  }
}
