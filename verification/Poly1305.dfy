/**
 Poly1305 of section 2.5 of RFC 8439 on big integers: reading and writing numbers, the clamped half
 of the key, and the loop over the blocks against the polynomial that it evaluates.
 */
module Poly1305 {
  import opened Basics
  import opened LittleEndian
  import opened Bitwise
  import opened ModArith
  import opened Buffers

  /** 2^130 - 5. */
  const PRIME: nat := 0x3_ffff_ffff_ffff_ffff_ffff_ffff_ffff_fffb

  // ---------- codecs ----------

  /** The `length` bytes from `offset` on, of which those past the end read as zero. */
  function Window(bytes: Bytes, offset: nat, length: nat): (r: Bytes)
    ensures |r| == length
  {
    if length == 0 then []
    else
      var last := offset + length - 1;
      Window(bytes, offset, length - 1) + [if last < |bytes| then bytes[last] else 0]
  }

  lemma {:induction false} WindowWithin(bytes: Bytes, offset: nat, length: nat)
    requires offset + length <= |bytes|
    ensures Window(bytes, offset, length) == bytes[offset..offset + length]
  {
    if length > 0 {
      WindowWithin(bytes, offset, length - 1);
    }
  }

  method LeBytesToBigInt(bytes: Bytes, offset: nat, length: nat) returns (value: nat)
    ensures value == FromBytes(Window(bytes, offset, length))
  {
    value := 0;
    for i := 0 to length
      invariant value == FromBytes(Window(bytes, offset, i))
    {
      var next: byte := if offset + i < |bytes| then bytes[offset + i] else 0;
      FromBytesSnoc(Window(bytes, offset, i), next);
      value := value + Pow256(i) * next;
    }
  }

  method BigIntToBytes(value: nat, length: nat) returns (result: array<byte>)
    ensures fresh(result) && result[..] == ToBytes(value, length)
  {
    result := new byte[length];
    for i := 0 to length
      invariant forall j :: 0 <= j < i ==> result[j] == ToBytes(value, length)[j]
    {
      ToBytesAt(value, length, i);
      result[i] := ShiftRight(value, i) % 256;
    }
  }

  const LENGTH_WIDTH: nat := 8

  method WriteUint64LE(target: array<byte>, offset: nat, value: nat)
    requires offset + 8 <= target.Length
    modifies target
    ensures target[offset..offset + 8] == ToBytes(value, LENGTH_WIDTH)
    ensures target[..offset] == old(target[..offset]) && target[offset + 8..] == old(target[offset + 8..])
  {
    for i := 0 to 8
      invariant forall j :: 0 <= j < i ==> target[offset + j] == ToBytes(value, LENGTH_WIDTH)[j]
      invariant target[..offset] == old(target[..offset]) && target[offset + 8..] == old(target[offset + 8..])
    {
      ToBytesAt(value, LENGTH_WIDTH, i);
      target[offset + i] := ShiftRight(value, i) % 256;
    }
  }

  function Concat(parts: seq<Bytes>): Bytes {
    if parts == [] then [] else Concat(parts[..|parts| - 1]) + parts[|parts| - 1]
  }

  function TotalLength(parts: seq<Bytes>): nat {
    if parts == [] then 0 else TotalLength(parts[..|parts| - 1]) + |parts[|parts| - 1]|
  }

  lemma {:induction false} ConcatLength(parts: seq<Bytes>, k: nat)
    requires k <= |parts|
    ensures |Concat(parts)| == TotalLength(parts)
    ensures TotalLength(parts[..k]) <= TotalLength(parts)
  {
    if k < |parts| {
      var rest := parts[..|parts| - 1];
      ConcatLength(rest, k);
      assert rest[..k] == parts[..k];
    } else {
      assert parts[..k] == parts;
      if parts != [] {
        ConcatLength(parts[..|parts| - 1], 0);
      }
    }
  }

  method ConcatBytes(parts: seq<Bytes>) returns (result: array<byte>)
    ensures fresh(result) && result[..] == Concat(parts)
  {
    var total := 0;
    for k := 0 to |parts|
      invariant total == TotalLength(parts[..k])
    {
      assert parts[..k + 1][..k] == parts[..k];
      total := total + |parts[k]|;
    }
    assert parts[..|parts|] == parts;
    result := new byte[total];
    var offset := 0;
    for k := 0 to |parts|
      invariant offset == TotalLength(parts[..k]) <= total
      invariant result[..offset] == Concat(parts[..k])
    {
      assert parts[..k + 1][..k] == parts[..k];
      ConcatLength(parts, k + 1);
      SetBytes(result, parts[k], offset);
      offset := offset + |parts[k]|;
    }
    ConcatLength(parts, 0);
  }

  // ---------- the clamped key ----------

  const CLAMP: nat := 0x0fff_fffc_0fff_fffc_0fff_fffc_0fff_ffff

  const CLAMP_LOW: Bytes := [255, 255, 255, 15]

  const CLAMP_HIGH: Bytes := [252, 255, 255, 15]

  const CLAMP_BYTES: Bytes := CLAMP_LOW + (CLAMP_HIGH + (CLAMP_HIGH + CLAMP_HIGH))

  const CLAMP_BITS: nat := 128

  function ClampPolyKey(value: nat): nat {
    And(value, CLAMP, CLAMP_BITS)
  }

  /** Section 2.5 of RFC 8439: bytes 3, 7, 11 and 15 below sixteen, bytes 4, 8 and 12 divisible by four. */
  function ClampByte(x: byte, i: nat): byte {
    if i == 3 || i == 7 || i == 11 || i == 15 then x % 16
    else if i == 4 || i == 8 || i == 12 then x - x % 4
    else x
  }

  function ClampBytes(b: Bytes): (r: Bytes)
    ensures |r| == |b|
  {
    seq(|b|, i requires 0 <= i < |b| => ClampByte(b[i], i))
  }

  lemma {:induction false} ClampedEach(b: Bytes, i: nat)
    requires |b| == 16 && i <= 16
    ensures FromDigits(AndEach(b[i..], CLAMP_BYTES[i..])) == FromBytes(ClampBytes(b)[i..])
    decreases 16 - i
  {
    if i < 16 {
      ClampedEach(b, i + 1);
      assert b[i..][1..] == b[i + 1..] && CLAMP_BYTES[i..][1..] == CLAMP_BYTES[i + 1..];
      assert ClampBytes(b)[i..][1..] == ClampBytes(b)[i + 1..];
      MaskedByte(b[i], i);
    }
  }

  lemma {:induction false} MaskedByte(x: byte, i: nat)
    requires i < 16
    ensures And(x, CLAMP_BYTES[i], 8) == ClampByte(x, i)
  {
    MaskAll(x);
    MaskLowFour(x);
    MaskHighSix(x);
  }

  /** The mask of the whole number clamps the bytes the standard names, and no others. */
  lemma {:induction false} ClampIs(b: Bytes)
    requires |b| == 16
    ensures ClampPolyKey(FromBytes(b)) == FromBytes(ClampBytes(b))
  {
    ClampMask();
    AndBytes(b, CLAMP_BYTES);
    ClampedWhole(b);
  }

  lemma {:induction false} ClampedWhole(b: Bytes)
    requires |b| == 16
    ensures FromDigits(AndEach(b, CLAMP_BYTES)) == FromBytes(ClampBytes(b))
  {
    ClampedEach(b, 0);
    assert b[0..] == b && CLAMP_BYTES[0..] == CLAMP_BYTES && ClampBytes(b)[0..] == ClampBytes(b);
  }

  lemma {:induction false} ClampMask()
    ensures FromBytes(CLAMP_BYTES) == CLAMP
  {
    MaskWords();
    FromBytesAppend(CLAMP_HIGH, CLAMP_HIGH);
    FromBytesAppend(CLAMP_HIGH, CLAMP_HIGH + CLAMP_HIGH);
    FromBytesAppend(CLAMP_LOW, CLAMP_HIGH + (CLAMP_HIGH + CLAMP_HIGH));
  }

  lemma {:induction false} MaskWords()
    ensures FromBytes(CLAMP_LOW) == 0x0fff_ffff
    ensures FromBytes(CLAMP_HIGH) == 0x0fff_fffc
    ensures Pow256(4) == 0x1_0000_0000
  {
    assert FromBytes([255, 255, 255, 15]) == 0x0fff_ffff;
    assert FromBytes([252, 255, 255, 15]) == 0x0fff_fffc;
  }

  // ---------- the polynomial ----------

  function Chunks(length: nat): (n: nat)
    ensures length <= 16 * n < length + 16
  {
    (length + 15) / 16
  }

  /** The `k`-th block: sixteen bytes, or what is left. */
  function Chunk(data: Bytes, k: nat): Bytes
    requires 16 * k < |data|
  {
    data[16 * k..if 16 * k + 16 <= |data| then 16 * k + 16 else |data|]
  }

  /** The block as a number with a one bit above its last byte. */
  function Coefficient(data: Bytes, k: nat): nat
    requires 16 * k < |data|
  {
    FromBytes(Chunk(data, k)) + Pow256(|Chunk(data, k)|)
  }

  /** The first `k` terms of c_0 r^n + c_1 r^(n-1) + ... + c_(n-1) r. */
  function Terms(data: Bytes, r: int, k: nat, n: nat): int
    requires k <= n && k <= Chunks(|data|)
  {
    if k == 0 then 0 else Terms(data, r, k - 1, n) + Coefficient(data, k - 1) * Pow(r, n - k + 1)
  }

  function Polynomial(data: Bytes, r: int): int {
    Terms(data, r, Chunks(|data|), Chunks(|data|))
  }

  lemma {:induction false} TermsRaise(data: Bytes, r: int, k: nat, n: nat)
    requires k <= n && k <= Chunks(|data|)
    ensures Terms(data, r, k, n + 1) == r * Terms(data, r, k, n)
  {
    if k > 0 {
      TermsRaise(data, r, k - 1, n);
      RaiseOne(Coefficient(data, k - 1), r, Pow(r, n - k + 1), Terms(data, r, k - 1, n));
    }
  }

  lemma {:induction false} RaiseOne(c: int, r: int, q: int, t: int)
    ensures r * t + c * (r * q) == r * (t + c * q)
  {
  }

  /** The polynomial's value after `k` blocks, from a start value. */
  function Value(data: Bytes, r: int, k: nat, start: int): int
    requires k <= Chunks(|data|)
  {
    start * Pow(r, k) + Terms(data, r, k, k)
  }

  /** Another block raises every power and adds a term. */
  lemma {:induction false} HornerStep(data: Bytes, r: int, k: nat, start: int)
    requires k < Chunks(|data|)
    ensures Value(data, r, k + 1, start) == (Value(data, r, k, start) + Coefficient(data, k)) * r
  {
    TermsRaise(data, r, k, k);
    HornerValue(start, Pow(r, k), r, Terms(data, r, k, k), Coefficient(data, k));
    assert Pow(r, 1) == r * Pow(r, 0);
  }

  lemma {:induction false} StepCong(acc: int, value: int, c: int, r: int, sum: int, next: int, p: int)
    requires p > 0 && Cong(acc, value, p) && sum == (acc + c) % p && next == sum * r % p
    ensures Cong(next, (value + c) * r, p)
  {
    CongRefl(c, p);
    CongAdd(acc, value, c, c, p);
    CongMod(acc + c, p);
    CongTrans(sum, acc + c, value + c, p);
    CongRefl(r, p);
    CongMul(sum, value + c, r, r, p);
    CongMod(sum * r, p);
    CongTrans(next, sum * r, (value + c) * r, p);
  }

  lemma {:induction false} HornerValue(start: int, q: int, r: int, t: int, c: int)
    ensures (start * q + t + c) * r == start * (r * q) + (r * t + c * r)
  {
  }

  method Poly1305Accumulate(start: nat, r: nat, data: Bytes, prime: nat) returns (acc: nat)
    requires start < prime
    ensures acc < prime && Cong(acc, start * Pow(r, Chunks(|data|)) + Polynomial(data, r), prime)
  {
    acc := start;
    var offset := 0;
    ghost var k := 0;
    CongRefl(start, prime);
    while offset < |data|
      invariant offset == 16 * k && k <= Chunks(|data|) && acc < prime
      invariant Cong(acc, Value(data, r, k, start), prime)
    {
      HornerStep(data, r, k, start);
      acc := AddBlock(acc, r, data, offset, prime, k, Value(data, r, k, start));
      offset := offset + 16;
      k := k + 1;
    }
  }

  /** The body of the loop: adds the block at `offset` and multiplies. */
  method AddBlock(acc: nat, r: nat, data: Bytes, offset: nat, prime: nat, ghost k: nat, ghost value: int)
    returns (next: nat)
    requires offset == 16 * k < |data| && prime > 0 && Cong(acc, value, prime)
    ensures next < prime && Cong(next, (value + Coefficient(data, k)) * r, prime)
  {
    var chunk := if 16 < |data| - offset then 16 else |data| - offset;
    var block := LeBytesToBigInt(data, offset, chunk);
    WindowWithin(data, offset, chunk);
    assert block + Pow256(chunk) == Coefficient(data, k);
    var sum := (acc + (block + Pow256(chunk))) % prime;
    next := sum * r % prime;
    StepCong(acc, value, Coefficient(data, k), r, sum, next, prime);
  }
}
