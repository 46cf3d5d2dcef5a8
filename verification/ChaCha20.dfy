/**
 The ChaCha20 block function of section 2 of RFC 8439 on words: the quarter round, the column and
 the diagonal rounds, and the reading and writing of words as little-endian bytes.
 */
module ChaCha20 {
  import opened Basics
  import opened LittleEndian

  type Word = bv32

  // ---------- word operations ----------

  function Add(a: Word, b: Word): Word { a + b }

  function Subtract(a: Word, b: Word): Word { a - b }

  function Xor(a: Word, b: Word): Word { a ^ b }

  function RotateLeft(value: Word, count: Word): Word
    requires 0 < count < 32
  {
    (value << count) | (value >> (32 - count))
  }

  lemma {:induction false} AddSubtract(a: Word, b: Word)
    ensures Subtract(Add(a, b), b) == a
    ensures Add(Subtract(a, b), b) == a
  {
    assert Subtract(a + b, b) == a;
    assert Add(a, b) == a + b;
    assert Add(a - b, b) == a;
    assert Subtract(a, b) == a - b;
  }

  lemma {:induction false} XorTwice(a: Word, b: Word)
    ensures Xor(Xor(a, b), b) == a
  {
    assert Xor(a ^ b, b) == a;
    assert Xor(a, b) == a ^ b;
  }

  lemma {:induction false} Rotate16(v: Word)
    ensures RotateLeft(RotateLeft(v, 16), 16) == v
  {
  }

  lemma {:induction false} Rotate12(v: Word)
    ensures RotateLeft(RotateLeft(v, 12), 20) == v
  {
  }

  lemma {:induction false} Rotate20(v: Word)
    ensures RotateLeft(RotateLeft(v, 20), 12) == v
  {
  }

  lemma {:induction false} Rotate8(v: Word)
    ensures RotateLeft(RotateLeft(v, 8), 24) == v
  {
  }

  lemma {:induction false} Rotate24(v: Word)
    ensures RotateLeft(RotateLeft(v, 24), 8) == v
  {
  }

  lemma {:induction false} Rotate7(v: Word)
    ensures RotateLeft(RotateLeft(v, 7), 25) == v
  {
  }

  lemma {:induction false} Rotate25(v: Word)
    ensures RotateLeft(RotateLeft(v, 25), 7) == v
  {
  }

  // ---------- the quarter round ----------

  datatype Quad = Quad(a: Word, b: Word, c: Word, d: Word)

  /** Section 2.1 of RFC 8439. */
  function Quarter(q: Quad): Quad {
    var a1 := Add(q.a, q.b);
    var d1 := RotateLeft(Xor(q.d, a1), 16);
    var c1 := Add(q.c, d1);
    var b1 := RotateLeft(Xor(q.b, c1), 12);
    var a2 := Add(a1, b1);
    var d2 := RotateLeft(Xor(d1, a2), 8);
    var c2 := Add(c1, d2);
    var b2 := RotateLeft(Xor(b1, c2), 7);
    Quad(a2, b2, c2, d2)
  }

  function Unquarter(q: Quad): Quad {
    var b1 := Xor(RotateLeft(q.b, 25), q.c);
    var c1 := Subtract(q.c, q.d);
    var d1 := Xor(RotateLeft(q.d, 24), q.a);
    var a1 := Subtract(q.a, b1);
    var b0 := Xor(RotateLeft(b1, 20), c1);
    var c0 := Subtract(c1, d1);
    var d0 := Xor(RotateLeft(d1, 16), a1);
    Quad(Subtract(a1, b0), b0, c0, d0)
  }

  /** The quarter round is a bijection on four words. */
  lemma {:induction false} QuarterBijection(q: Quad)
    ensures Unquarter(Quarter(q)) == q
    ensures Quarter(Unquarter(q)) == q
  {
    UnquarterQuarter(q);
    QuarterUnquarter(q);
  }

  lemma {:induction false} UnquarterQuarter(q: Quad)
    ensures Unquarter(Quarter(q)) == q
  {
    var a1 := Add(q.a, q.b);
    var d1 := RotateLeft(Xor(q.d, a1), 16);
    var c1 := Add(q.c, d1);
    var b1 := RotateLeft(Xor(q.b, c1), 12);
    var a2 := Add(a1, b1);
    var d2 := RotateLeft(Xor(d1, a2), 8);
    var c2 := Add(c1, d2);
    Rotate16(Xor(q.d, a1));
    Rotate12(Xor(q.b, c1));
    Rotate8(Xor(d1, a2));
    Rotate7(Xor(b1, c2));
    XorTwice(q.d, a1);
    XorTwice(q.b, c1);
    XorTwice(d1, a2);
    XorTwice(b1, c2);
    AddSubtract(q.a, q.b);
    AddSubtract(q.c, d1);
    AddSubtract(a1, b1);
    AddSubtract(c1, d2);
  }

  lemma {:induction false} QuarterUnquarter(q: Quad)
    ensures Quarter(Unquarter(q)) == q
  {
    var b1 := Xor(RotateLeft(q.b, 25), q.c);
    var c1 := Subtract(q.c, q.d);
    var d1 := Xor(RotateLeft(q.d, 24), q.a);
    var a1 := Subtract(q.a, b1);
    var b0 := Xor(RotateLeft(b1, 20), c1);
    Rotate25(q.b);
    Rotate24(q.d);
    Rotate20(b1);
    Rotate16(d1);
    XorTwice(RotateLeft(q.b, 25), q.c);
    XorTwice(RotateLeft(q.d, 24), q.a);
    XorTwice(RotateLeft(b1, 20), c1);
    XorTwice(RotateLeft(d1, 16), a1);
    AddSubtract(q.c, q.d);
    AddSubtract(q.a, b1);
    AddSubtract(c1, d1);
    AddSubtract(a1, b0);
  }

  /** The test vector of section 2.1.1 of RFC 8439. */
  lemma {:induction false} QuarterVector()
    ensures Quarter(Quad(0x1111_1111, 0x0102_0304, 0x9b8d_6f43, 0x0123_4567))
            == Quad(0xea2a_92f4, 0xcb1c_f8ce, 0x4581_472e, 0x5881_c4bb)
  {
  }

  /** The quarter round on four words of a state. */
  function QuarterAt(s: seq<Word>, a: nat, b: nat, c: nat, d: nat): (r: seq<Word>)
    requires a < |s| && b < |s| && c < |s| && d < |s|
    ensures |r| == |s|
  {
    var q := Quarter(Quad(s[a], s[b], s[c], s[d]));
    s[a := q.a][b := q.b][c := q.c][d := q.d]
  }

  method QuarterRound(state: array<Word>, a: nat, b: nat, c: nat, d: nat)
    requires a < state.Length && b < state.Length && c < state.Length && d < state.Length
    requires a != b && a != c && a != d && b != c && b != d && c != d
    modifies state
    ensures state[..] == QuarterAt(old(state[..]), a, b, c, d)
  {
    AddXorRotate(state, a, b, d, 16);
    AddXorRotate(state, c, d, b, 12);
    AddXorRotate(state, a, b, d, 8);
    AddXorRotate(state, c, d, b, 7);
    assert forall i :: 0 <= i < state.Length ==> state[i] == QuarterAt(old(state[..]), a, b, c, d)[i];
  }

  /** One of the four lines of a quarter round. */
  method AddXorRotate(state: array<Word>, x: nat, y: nat, z: nat, count: Word)
    requires x < state.Length && y < state.Length && z < state.Length
    requires x != y && x != z && y != z && 0 < count < 32
    modifies state
    ensures state[x] == Add(old(state[x]), old(state[y]))
    ensures state[z] == RotateLeft(Xor(old(state[z]), state[x]), count)
    ensures forall i :: 0 <= i < state.Length && i != x && i != z ==> state[i] == old(state[i])
  {
    state[x] := Add(state[x], state[y]);
    state[z] := Xor(state[z], state[x]);
    state[z] := RotateLeft(state[z], count);
  }

  // ---------- the rounds ----------

  /** The `i`-th quarter round of a column round (`k` 0) or a diagonal round (`k` 1) on the 4 by 4 state. */
  function LaneAt(s: seq<Word>, i: nat, k: nat): (r: seq<Word>)
    requires |s| == 16 && i < 4
    ensures |r| == 16
  {
    QuarterAt(s, i, 4 + (i + k) % 4, 8 + (i + 2 * k) % 4, 12 + (i + 3 * k) % 4)
  }

  function Round(s: seq<Word>, k: nat): (r: seq<Word>)
    requires |s| == 16
    ensures |r| == 16
  {
    LaneAt(LaneAt(LaneAt(LaneAt(s, 0, k), 1, k), 2, k), 3, k)
  }

  /** `n` column rounds, each followed by a diagonal round. */
  function DoubleRounds(s: seq<Word>, n: nat): (r: seq<Word>)
    requires |s| == 16
    ensures |r| == 16
    decreases n
  {
    if n == 0 then s else Round(Round(DoubleRounds(s, n - 1), 0), 1)
  }

  method ColumnRound(working: array<Word>)
    requires working.Length == 16
    modifies working
    ensures working[..] == Round(old(working[..]), 0)
  {
    ColumnLane(working[..], 0);
    QuarterRound(working, 0, 4, 8, 12);
    ColumnLane(working[..], 1);
    QuarterRound(working, 1, 5, 9, 13);
    ColumnLane(working[..], 2);
    QuarterRound(working, 2, 6, 10, 14);
    ColumnLane(working[..], 3);
    QuarterRound(working, 3, 7, 11, 15);
  }

  lemma {:induction false} ColumnLane(s: seq<Word>, i: nat)
    requires |s| == 16 && i < 4
    ensures LaneAt(s, i, 0) == QuarterAt(s, i, 4 + i, 8 + i, 12 + i)
  {
  }

  method DiagonalRound(working: array<Word>)
    requires working.Length == 16
    modifies working
    ensures working[..] == Round(old(working[..]), 1)
  {
    DiagonalLane(working[..], 0, 5, 10, 15);
    QuarterRound(working, 0, 5, 10, 15);
    DiagonalLane(working[..], 1, 6, 11, 12);
    QuarterRound(working, 1, 6, 11, 12);
    DiagonalLane(working[..], 2, 7, 8, 13);
    QuarterRound(working, 2, 7, 8, 13);
    DiagonalLane(working[..], 3, 4, 9, 14);
    QuarterRound(working, 3, 4, 9, 14);
  }

  lemma {:induction false} DiagonalLane(s: seq<Word>, i: nat, b: nat, c: nat, d: nat)
    requires |s| == 16 && i < 4
    requires b == 4 + (i + 1) % 4 && c == 8 + (i + 2) % 4 && d == 12 + (i + 3) % 4
    ensures LaneAt(s, i, 1) == QuarterAt(s, i, b, c, d)
  {
  }

  // ---------- the block function ----------

  function ReadWord(bytes: Bytes, offset: nat): Word
    requires offset + 4 <= |bytes|
  {
    FromBytesBound(bytes[offset..offset + 4]);
    assert Pow256(4) == 0x1_0000_0000;
    FromBytes(bytes[offset..offset + 4]) as Word
  }

  /** The little-endian words of `bytes`. */
  function ReadWords(bytes: Bytes): (r: seq<Word>)
    ensures |r| == |bytes| / 4
    ensures forall i :: 0 <= i < |r| ==> r[i] == ReadWord(bytes, 4 * i)
  {
    seq(|bytes| / 4, i requires 0 <= i < |bytes| / 4 => ReadWord(bytes, 4 * i))
  }

  /** The words of the text `expand 32-byte k`. */
  const CONSTANTS: seq<Word> := [0x6170_7865, 0x3320_646e, 0x7962_2d32, 0x6b20_6574]

  /** Section 2.3 of RFC 8439. */
  function InitialState(key: Bytes, counter: u32, nonce: Bytes): (r: seq<Word>)
    requires |key| == 32 && |nonce| == 12
    ensures |r| == 16
  {
    CONSTANTS + ReadWords(key) + [counter as Word] + ReadWords(nonce)
  }

  function WriteWords(words: seq<Word>): (r: Bytes)
    ensures |r| == 4 * |words|
  {
    if words == [] then [] else WriteWords(words[..|words| - 1]) + ToBytes(words[|words| - 1] as nat, 4)
  }

  function AddEach(a: seq<Word>, b: seq<Word>): (r: seq<Word>)
    requires |a| == |b|
    ensures |r| == |a|
    ensures forall i :: 0 <= i < |a| ==> r[i] == Add(a[i], b[i])
  {
    seq(|a|, i requires 0 <= i < |a| => Add(a[i], b[i]))
  }

  const DOUBLE_ROUNDS: nat := 10

  /** The state after twenty rounds, added to itself before them. */
  function Mixed(state: seq<Word>): (r: seq<Word>)
    requires |state| == 16
    ensures |r| == 16
  {
    AddEach(DoubleRounds(state, DOUBLE_ROUNDS), state)
  }

  function Block(key: Bytes, counter: u32, nonce: Bytes): (r: Bytes)
    requires |key| == 32 && |nonce| == 12
    ensures |r| == 64
  {
    WriteWords(Mixed(InitialState(key, counter, nonce)))
  }

  lemma {:induction false} ConstantsSpell()
    ensures FromBytes([101, 120, 112, 97]) == 0x6170_7865 && FromBytes([110, 100, 32, 51]) == 0x3320_646e
    ensures FromBytes([50, 45, 98, 121]) == 0x7962_2d32 && FromBytes([116, 101, 32, 107]) == 0x6b20_6574
  {
  }
}
