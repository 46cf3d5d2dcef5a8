/**
 The packed result of an HPKE operation: three lengths, then nonce, encapsulated key and payload, as
 the WASM library writes it and as the worker's client takes it apart.
 */
module HpkeResult {
  import opened Basics
  import opened LittleEndian

  datatype HpkeResult = HpkeResult(nonce: Bytes, enc: Bytes, payload: Bytes)

  const WIDTH: nat := 4

  /** As the WASM library writes it; a length is cut to 32 bits. */
  function Pack(r: HpkeResult): Bytes {
    ToBytes(|r.nonce|, WIDTH) + ToBytes(|r.enc|, WIDTH) + ToBytes(|r.payload|, WIDTH) + r.nonce + r.enc + r.payload
  }

  /** A slice whose bounds may lie beyond the end. */
  function Slice(bytes: Bytes, start: nat, end: nat): Bytes
    requires start <= end
  {
    var from := if start < |bytes| then start else |bytes|;
    var to := if end < |bytes| then end else |bytes|;
    bytes[from..to]
  }

  function Uint32At(bytes: Bytes, offset: nat): nat
    requires offset + 4 <= |bytes|
  {
    FromBytes(bytes[offset..offset + 4])
  }

  /** None stands for the range error of reading a length past the end. */
  function Decode(bytes: Bytes): Option<HpkeResult> {
    if |bytes| < 12 then None
    else
      var encStart := 12 + Uint32At(bytes, 0);
      var payloadStart := encStart + Uint32At(bytes, 4);
      Some(HpkeResult(
        Slice(bytes, 12, encStart),
        Slice(bytes, encStart, payloadStart),
        Slice(bytes, payloadStart, payloadStart + Uint32At(bytes, 8))))
  }

  predicate Small(r: HpkeResult) {
    |r.nonce| < 0x1_0000_0000 && |r.enc| < 0x1_0000_0000 && |r.payload| < 0x1_0000_0000
  }

  /** What was packed decodes to the same parts. */
  lemma {:induction false} PackDecode(r: HpkeResult)
    requires Small(r)
    ensures Decode(Pack(r)) == Some(r)
  {
    var b := Pack(r);
    LengthsPacked(r);
    Sliced(b[..12], r.nonce, r.enc + r.payload, b);
    Sliced(b[..12] + r.nonce, r.enc, r.payload, b);
    Sliced(b[..12] + r.nonce + r.enc, r.payload, [], b);
  }

  lemma {:induction false} Sliced(before: Bytes, part: Bytes, after: Bytes, whole: Bytes)
    requires whole == before + part + after
    ensures Slice(whole, |before|, |before| + |part|) == part
  {
  }

  lemma {:induction false} LengthsPacked(r: HpkeResult)
    requires Small(r)
    ensures |Pack(r)| == 12 + |r.nonce| + |r.enc| + |r.payload|
    ensures Uint32At(Pack(r), 0) == |r.nonce|
    ensures Uint32At(Pack(r), 4) == |r.enc|
    ensures Uint32At(Pack(r), 8) == |r.payload|
  {
    var b := Pack(r);
    WidthIs();
    assert b[0..4] == ToBytes(|r.nonce|, WIDTH);
    assert b[4..8] == ToBytes(|r.enc|, WIDTH);
    assert b[8..12] == ToBytes(|r.payload|, WIDTH);
    FromToBytes(|r.nonce|, WIDTH);
    FromToBytes(|r.enc|, WIDTH);
    FromToBytes(|r.payload|, WIDTH);
  }

  lemma {:induction false} WidthIs()
    ensures Pow256(WIDTH) == 0x1_0000_0000
  {
    assert Pow256(4) == 0x1_0000_0000;
  }

  /** Packing what was decoded gives the bytes back exactly when the three lengths account for all of them. */
  lemma {:induction false} DecodePackIff(b: Bytes)
    requires |b| >= 12
    ensures Pack(Decode(b).value) == b <==> 12 + Uint32At(b, 0) + Uint32At(b, 4) + Uint32At(b, 8) == |b|
  {
    WidthIs();
    FromBytesBound(b[0..4]);
    FromBytesBound(b[4..8]);
    FromBytesBound(b[8..12]);
    var r := Decode(b).value;
    if 12 + Uint32At(b, 0) + Uint32At(b, 4) + Uint32At(b, 8) == |b| {
      Repacked(b);
    } else if Pack(r) == b {
      LengthsPacked(r);
    }
  }

  lemma {:induction false} Repacked(b: Bytes)
    requires |b| >= 12 && 12 + Uint32At(b, 0) + Uint32At(b, 4) + Uint32At(b, 8) == |b|
    ensures Pack(Decode(b).value) == b
  {
    var n, e := Uint32At(b, 0), Uint32At(b, 4);
    ToFromBytes(b[0..4]);
    ToFromBytes(b[4..8]);
    ToFromBytes(b[8..12]);
    DecodedParts(b, n, e);
    SixParts(b, 12 + n, 12 + n + e);
  }

  lemma {:induction false} DecodedParts(b: Bytes, n: nat, e: nat)
    requires |b| >= 12 && n == Uint32At(b, 0) && e == Uint32At(b, 4)
    requires 12 + n + e + Uint32At(b, 8) == |b|
    ensures Decode(b) == Some(HpkeResult(b[12..12 + n], b[12 + n..12 + n + e], b[12 + n + e..]))
  {
    assert b[12 + n + e..|b|] == b[12 + n + e..];
  }

  lemma {:induction false} SixParts(b: Bytes, i: nat, j: nat)
    requires 12 <= i <= j <= |b|
    ensures b == b[0..4] + b[4..8] + b[8..12] + b[12..i] + b[i..j] + b[j..]
  {
    assert b[..12] == b[0..4] + b[4..8] + b[8..12];
    assert b[..i] == b[..12] + b[12..i];
    assert b[..j] == b[..i] + b[i..j];
  }

  /** Where the parts and their lengths stand. */
  lemma {:induction false} PackLayout(r: HpkeResult)
    requires Small(r)
    ensures var b, n, e := Pack(r), |r.nonce|, |r.enc|;
            && |b| == 12 + n + e + |r.payload|
            && FromBytes(b[0..4]) == n && FromBytes(b[4..8]) == e && FromBytes(b[8..12]) == |r.payload|
            && b[12..12 + n] == r.nonce && b[12 + n..12 + n + e] == r.enc && b[12 + n + e..] == r.payload
  {
    LengthsPacked(r);
  }

  /** As many bytes from `start` on as are wanted and there are. */
  ghost predicate IsPart(part: Bytes, b: Bytes, start: nat, wanted: nat) {
    && |part| == (if start + wanted <= |b| then wanted else if start <= |b| then |b| - start else 0)
    && forall i :: 0 <= i < |part| ==> part[i] == b[start + i]
  }

  /** Each part is what its length asks for, as far as the bytes reach. */
  lemma {:induction false} DecodeExact(b: Bytes)
    requires |b| >= 12
    ensures var r, n, e, p := Decode(b).value, FromBytes(b[0..4]), FromBytes(b[4..8]), FromBytes(b[8..12]);
            IsPart(r.nonce, b, 12, n) && IsPart(r.enc, b, 12 + n, e) && IsPart(r.payload, b, 12 + n + e, p)
  {
  }
}
