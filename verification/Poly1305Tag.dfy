/**
 The tag of section 2.8 of RFC 8439: associated data and ciphertext, each padded to whole blocks, and
 their lengths are framed without ambiguity, and the polynomial's value is cut to sixteen bytes.
 */
module Poly1305Tag {
  import opened Basics
  import opened LittleEndian
  import opened ModArith
  import opened Poly1305
  import opened Buffers

  // ---------- framing ----------

  function Poly1305Padding(length: nat): (r: Bytes)
    ensures |r| < 16 && (length + |r|) % 16 == 0
  {
    var remainder := length % 16;
    if remainder == 0 then [] else Zeros(16 - remainder)
  }

  function LengthBlock(aad: Bytes, ciphertext: Bytes): (r: Bytes)
    ensures |r| == 16
  {
    ToBytes(|aad|, LENGTH_WIDTH) + ToBytes(|ciphertext|, LENGTH_WIDTH)
  }

  function Padded(data: Bytes): (r: Bytes)
    ensures |r| % 16 == 0
  {
    data + Poly1305Padding(|data|)
  }

  function MacData(aad: Bytes, ciphertext: Bytes): Bytes {
    Padded(aad) + (Padded(ciphertext) + LengthBlock(aad, ciphertext))
  }

  lemma {:induction false} MacDataAligned(aad: Bytes, ciphertext: Bytes)
    ensures |MacData(aad, ciphertext)| % 16 == 0
  {
    SumAligned(|Padded(aad)|, |Padded(ciphertext)|);
  }

  lemma {:induction false} SumAligned(m: nat, n: nat)
    requires m % 16 == 0 && n % 16 == 0
    ensures (m + (n + 16)) % 16 == 0
  {
  }

  /** Different inputs are authenticated as different data. */
  lemma {:induction false} MacDataInjective(aad: Bytes, ciphertext: Bytes, aad': Bytes, ciphertext': Bytes)
    requires |aad| < Pow256(LENGTH_WIDTH) && |ciphertext| < Pow256(LENGTH_WIDTH)
    requires |aad'| < Pow256(LENGTH_WIDTH) && |ciphertext'| < Pow256(LENGTH_WIDTH)
    requires MacData(aad, ciphertext) == MacData(aad', ciphertext')
    ensures aad == aad' && ciphertext == ciphertext'
  {
    Regroup(Padded(aad), Padded(ciphertext), LengthBlock(aad, ciphertext));
    Regroup(Padded(aad'), Padded(ciphertext'), LengthBlock(aad', ciphertext'));
    SameTail(Padded(aad) + Padded(ciphertext), LengthBlock(aad, ciphertext),
             Padded(aad') + Padded(ciphertext'), LengthBlock(aad', ciphertext'));
    SameHead(ToBytes(|aad|, LENGTH_WIDTH), ToBytes(|ciphertext|, LENGTH_WIDTH),
             ToBytes(|aad'|, LENGTH_WIDTH), ToBytes(|ciphertext'|, LENGTH_WIDTH));
    ToBytesInjective(|aad|, |aad'|, LENGTH_WIDTH);
    ToBytesInjective(|ciphertext|, |ciphertext'|, LENGTH_WIDTH);
    SameHead(Padded(aad), Padded(ciphertext), Padded(aad'), Padded(ciphertext'));
    SameHead(aad, Poly1305Padding(|aad|), aad', Poly1305Padding(|aad'|));
    SameHead(ciphertext, Poly1305Padding(|ciphertext|), ciphertext', Poly1305Padding(|ciphertext'|));
  }

  lemma {:induction false} Regroup(a: Bytes, b: Bytes, c: Bytes)
    ensures a + (b + c) == (a + b) + c
  {
  }

  lemma {:induction false} SameTail(a: Bytes, b: Bytes, c: Bytes, d: Bytes)
    requires a + b == c + d && |b| == |d|
    ensures a == c && b == d
  {
    assert |a + b| == |c + d|;
    assert a == (a + b)[..|a|] && b == (a + b)[|a|..];
    assert c == (c + d)[..|c|] && d == (c + d)[|c|..];
  }

  lemma {:induction false} SameHead(a: Bytes, b: Bytes, c: Bytes, d: Bytes)
    requires a + b == c + d && |a| == |c|
    ensures a == c && b == d
  {
    assert a == (a + b)[..|a|] && b == (a + b)[|a|..];
    assert c == (c + d)[..|c|] && d == (c + d)[|c|..];
  }

  /** Section 2.8 of RFC 8439: data, zeros, ciphertext, zeros, and both lengths in eight bytes each. */
  lemma {:induction false} MacDataParts(aad: Bytes, ciphertext: Bytes)
    returns (p: Bytes, q: Bytes, m: Bytes, n: Bytes)
    requires |aad| < Pow256(LENGTH_WIDTH) && |ciphertext| < Pow256(LENGTH_WIDTH)
    ensures MacData(aad, ciphertext) == aad + p + ciphertext + q + m + n
    ensures p == Zeros(|p|) && |p| < 16 && (|aad| + |p|) % 16 == 0
    ensures q == Zeros(|q|) && |q| < 16 && (|ciphertext| + |q|) % 16 == 0
    ensures |m| == |n| == 8 && FromBytes(m) == |aad| && FromBytes(n) == |ciphertext|
  {
    p, q := Poly1305Padding(|aad|), Poly1305Padding(|ciphertext|);
    m, n := ToBytes(|aad|, LENGTH_WIDTH), ToBytes(|ciphertext|, LENGTH_WIDTH);
    FromToBytes(|aad|, LENGTH_WIDTH);
    FromToBytes(|ciphertext|, LENGTH_WIDTH);
    FlatParts(aad, p, ciphertext, q, m, n);
  }

  lemma {:induction false} FlatParts(a: Bytes, b: Bytes, c: Bytes, d: Bytes, e: Bytes, f: Bytes)
    ensures (a + b) + ((c + d) + (e + f)) == a + b + c + d + e + f
  {
  }

  // ---------- the tag ----------

  function Residue(v: int, p: int): nat
    requires p > 0
  {
    v % p
  }

  lemma {:induction false} ResidueIs(v: int, p: int, r: int)
    requires 0 <= r < p && Cong(r, v, p)
    ensures r == Residue(v, p)
  {
    CongMod(v, p);
    CongSym(v % p, v, p);
    CongTrans(r, v, v % p, p);
    CongEqual(r, v % p, p);
  }

  /** The value of the data's polynomial at `r`, plus `s`, in sixteen bytes. */
  function TagWith(r: nat, s: nat, data: Bytes): (tag: Bytes)
    ensures |tag| == 16
  {
    ToBytes(Residue(Residue(Polynomial(data, r), PRIME) + s, Pow256(16)), 16)
  }

  /** Section 2.5 of RFC 8439: `r` is the clamped first half of the key, and `s` the second half. */
  function Tag(key: Bytes, data: Bytes): (tag: Bytes)
    requires |key| == 32
    ensures |tag| == 16
  {
    TagWith(ClampPolyKey(FromBytes(key[..16])), FromBytes(key[16..]), data)
  }

  datatype Error = KeyLength | NonceLength | MissingTag | Authentication

  /** The tag in a new array; the length block and the framed data are zero afterwards. */
  method Poly1305Authenticate(key: Bytes, aad: Bytes, ciphertext: Bytes)
    returns (tag: Result<array<byte>, Error>, ghost lengthBlock: array?<byte>, ghost macData: array?<byte>)
    ensures |key| != 32 ==> tag == Err(KeyLength)
    ensures |key| == 32 ==> tag.Ok? && fresh(tag.value) && tag.value[..] == Tag(key, MacData(aad, ciphertext))
    ensures |key| == 32 ==> Cleared(lengthBlock, 16) && fresh(lengthBlock)
    ensures |key| == 32 ==> Cleared(macData, |MacData(aad, ciphertext)|) && fresh(macData)
    ensures |key| == 32 ==> lengthBlock != macData && tag.value != lengthBlock && tag.value != macData
  {
    lengthBlock, macData := null, null;
    if |key| != 32 {
      return Err(KeyLength), null, null;
    }
    var lengths := LengthBytes(aad, ciphertext);
    var framed := FrameMacData(aad, ciphertext, lengths[..]);
    var value := TagBytes(key, framed[..]);
    ClearBytes(lengths);
    ClearBytes(framed);
    tag := Ok(value);
    lengthBlock, macData := lengths, framed;
  }

  method LengthBytes(aad: Bytes, ciphertext: Bytes) returns (lengthBlock: array<byte>)
    ensures fresh(lengthBlock) && lengthBlock[..] == LengthBlock(aad, ciphertext)
  {
    lengthBlock := new byte[16];
    WriteUint64LE(lengthBlock, 0, |aad|);
    ghost var first := lengthBlock[..8];
    WriteUint64LE(lengthBlock, 8, |ciphertext|);
    assert lengthBlock[..8] == first;
    assert lengthBlock[..] == lengthBlock[..8] + lengthBlock[8..16];
  }

  method FrameMacData(aad: Bytes, ciphertext: Bytes, lengthBlock: Bytes) returns (macData: array<byte>)
    requires lengthBlock == LengthBlock(aad, ciphertext)
    ensures fresh(macData) && macData[..] == MacData(aad, ciphertext)
  {
    var p, q := Poly1305Padding(|aad|), Poly1305Padding(|ciphertext|);
    macData := ConcatBytes([aad, p, ciphertext, q, lengthBlock]);
    ConcatFive(aad, p, ciphertext, q, lengthBlock);
  }

  lemma {:induction false} ConcatSnoc(parts: seq<Bytes>, part: Bytes)
    ensures Concat(parts + [part]) == Concat(parts) + part
  {
    assert (parts + [part])[..|parts|] == parts;
  }

  lemma {:induction false} ConcatFive(a: Bytes, b: Bytes, c: Bytes, d: Bytes, e: Bytes)
    ensures Concat([a, b, c, d, e]) == (a + b) + ((c + d) + e)
  {
    ConcatSnoc([], a);
    ConcatSnoc([] + [a], b);
    ConcatSnoc([] + [a] + [b], c);
    ConcatSnoc([] + [a] + [b] + [c], d);
    ConcatSnoc([] + [a] + [b] + [c] + [d], e);
    assert [a, b, c, d, e] == [] + [a] + [b] + [c] + [d] + [e];
    assert [] + a + b + c + d + e == (a + b) + ((c + d) + e);
  }

  method TagBytes(key: Bytes, data: Bytes) returns (tag: array<byte>)
    requires |key| == 32
    ensures fresh(tag) && tag[..] == Tag(key, data)
  {
    var low := HalfKey(key, 0);
    var r := ClampPolyKey(low);
    var s := HalfKey(key, 16);
    tag := AddedTag(r, s, data);
  }

  method AddedTag(r: nat, s: nat, data: Bytes) returns (tag: array<byte>)
    ensures fresh(tag) && tag[..] == TagWith(r, s, data)
  {
    var acc := AccumulateAll(r, data);
    var tagValue := Residue(acc + s, Pow256(16));
    tag := BigIntToBytes(tagValue, 16);
  }

  method HalfKey(key: Bytes, offset: nat) returns (value: nat)
    requires |key| == 32 && (offset == 0 || offset == 16)
    ensures value == if offset == 0 then FromBytes(key[..16]) else FromBytes(key[16..])
  {
    value := LeBytesToBigInt(key, offset, 16);
    WindowWithin(key, offset, 16);
    assert key[0..16] == key[..16] && key[16..32] == key[16..];
  }

  method AccumulateAll(r: nat, data: Bytes) returns (acc: nat)
    ensures acc == Residue(Polynomial(data, r), PRIME)
  {
    acc := Poly1305Accumulate(0, r, data, PRIME);
    ResidueIs(Polynomial(data, r), PRIME, acc);
  }
}
