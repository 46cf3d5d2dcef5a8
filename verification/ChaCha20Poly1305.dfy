/**
 Authenticated encryption as in section 2.8 of RFC 8439: what sealing and opening compute, that each
 is the other's inverse, and the two operations on arrays, with everything they clear on the way.
 */
module ChaCha20Poly1305 {
  import opened Basics
  import opened Buffers
  import opened Keystream
  import opened ChaCha20Stream
  import opened Poly1305Tag

  // ---------- specification ----------

  /** The tag of a ciphertext, under the one-time key in the block with counter 0. */
  ghost function TagOf(key: Bytes, nonce: Bytes, aad: Bytes, ciphertext: Bytes): (r: Bytes)
    requires |key| == 32 && |nonce| == 12
    ensures |r| == 16
  {
    Tag(BlockOf(key, nonce)(0)[..32], MacData(aad, ciphertext))
  }

  ghost function Sealed(key: Bytes, nonce: Bytes, aad: Bytes, plaintext: Bytes): Result<Bytes, Error> {
    if |key| != 32 then Err(KeyLength)
    else if |nonce| != 12 then Err(NonceLength)
    else
      var ciphertext := Crypt(BlockOf(key, nonce), 1, plaintext);
      Ok(ciphertext + TagOf(key, nonce, aad, ciphertext))
  }

  ghost function Opened(key: Bytes, nonce: Bytes, aad: Bytes, ciphertext: Bytes): Result<Bytes, Error> {
    if |ciphertext| < 16 then Err(MissingTag)
    else if |key| != 32 then Err(KeyLength)
    else if |nonce| != 12 then Err(NonceLength)
    else
      var payload, tag := ciphertext[..|ciphertext| - 16], ciphertext[|ciphertext| - 16..];
      if TagOf(key, nonce, aad, payload) != tag then Err(Authentication)
      else Ok(Crypt(BlockOf(key, nonce), 1, payload))
  }

  /**
   Opening gives a plaintext exactly when sealing that plaintext gives the ciphertext: what was sealed
   opens, and nothing else opens.
   */
  lemma {:induction false} OpenIffSealed(key: Bytes, nonce: Bytes, aad: Bytes, plaintext: Bytes, ciphertext: Bytes)
    ensures Opened(key, nonce, aad, ciphertext) == Ok(plaintext)
       <==> Sealed(key, nonce, aad, plaintext) == Ok(ciphertext)
  {
    if Sealed(key, nonce, aad, plaintext) == Ok(ciphertext) {
      SealedOpens(key, nonce, aad, plaintext, ciphertext);
    }
    if Opened(key, nonce, aad, ciphertext) == Ok(plaintext) {
      OpenedSeals(key, nonce, aad, plaintext, ciphertext);
    }
  }

  lemma {:induction false} SealedOpens(key: Bytes, nonce: Bytes, aad: Bytes, plaintext: Bytes, ciphertext: Bytes)
    requires Sealed(key, nonce, aad, plaintext) == Ok(ciphertext)
    ensures Opened(key, nonce, aad, ciphertext) == Ok(plaintext)
  {
    var payload := Crypt(BlockOf(key, nonce), 1, plaintext);
    assert ciphertext[..|ciphertext| - 16] == payload;
    CryptTwice(BlockOf(key, nonce), 1, plaintext);
  }

  lemma {:induction false} OpenedSeals(key: Bytes, nonce: Bytes, aad: Bytes, plaintext: Bytes, ciphertext: Bytes)
    requires Opened(key, nonce, aad, ciphertext) == Ok(plaintext)
    ensures Sealed(key, nonce, aad, plaintext) == Ok(ciphertext)
  {
    var payload := ciphertext[..|ciphertext| - 16];
    CryptTwice(BlockOf(key, nonce), 1, payload);
    assert ciphertext == payload + ciphertext[|ciphertext| - 16..];
  }

  /** One ciphertext has at most one plaintext, and one plaintext one ciphertext of 16 bytes more. */
  lemma {:induction false} SealedInjective(key: Bytes, nonce: Bytes, aad: Bytes, p: Bytes, q: Bytes)
    requires |key| == 32 && |nonce| == 12
    ensures Sealed(key, nonce, aad, p).Ok?
    ensures Sealed(key, nonce, aad, p) == Sealed(key, nonce, aad, q) <==> p == q
    ensures |Sealed(key, nonce, aad, p).value| == |p| + 16
  {
    if Sealed(key, nonce, aad, p) == Sealed(key, nonce, aad, q) {
      SealedOpens(key, nonce, aad, p, Sealed(key, nonce, aad, p).value);
      SealedOpens(key, nonce, aad, q, Sealed(key, nonce, aad, q).value);
    }
  }

  /**
   The associated data is authenticated: what was sealed with one opens with another exactly if the tags
   of the two framings agree, framings that `MacDataInjective` tells apart.
   */
  lemma {:induction false} OpenOtherIff(key: Bytes, nonce: Bytes, aad: Bytes, other: Bytes, plaintext: Bytes)
    requires |key| == 32 && |nonce| == 12
    ensures var sealed := Sealed(key, nonce, aad, plaintext).value;
            var ciphertext, polyKey := sealed[..|plaintext|], BlockOf(key, nonce)(0)[..32];
            && ciphertext == Crypt(BlockOf(key, nonce), 1, plaintext)
            && (Opened(key, nonce, other, sealed) == Ok(plaintext)
                <==> Tag(polyKey, MacData(aad, ciphertext)) == Tag(polyKey, MacData(other, ciphertext)))
            && (Opened(key, nonce, other, sealed).Ok? || Opened(key, nonce, other, sealed) == Err(Authentication))
  {
    var ciphertext := Crypt(BlockOf(key, nonce), 1, plaintext);
    var sealed := Sealed(key, nonce, aad, plaintext).value;
    assert sealed[..|plaintext|] == ciphertext && sealed[|sealed| - 16..] == TagOf(key, nonce, aad, ciphertext);
    CryptTwice(BlockOf(key, nonce), 1, plaintext);
  }

  // ---------- the two operations on arrays ----------

  /** The one-time authentication key; the block it was cut from is returned as well. */
  method OneTimeKey(key: Bytes, nonce: Bytes) returns (polyKey: array<byte>, firstBlock: array<byte>)
    requires |key| == 32 && |nonce| == 12
    ensures fresh(polyKey) && fresh(firstBlock) && polyKey != firstBlock && firstBlock.Length == 64
    ensures polyKey[..] == BlockOf(key, nonce)(0)[..32]
  {
    firstBlock := EmitNamed(key, 0, nonce, null);
    polyKey := NewBytes(firstBlock[..32]);
  }

  /**
   The sealed bytes in a new array.  The four arrays made on the way, which held key material, the
   ciphertext and the tag, are zero; none of them is the result.
   */
  method Seal(key: Bytes, nonce: Bytes, aad: Bytes, plaintext: array<byte>)
    returns (r: Result<array<byte>, Error>, ghost firstBlock: array?<byte>, ghost polyKey: array?<byte>,
             ghost ciphertext: array?<byte>, ghost tag: array?<byte>)
    ensures Agrees(r, Sealed(key, nonce, aad, plaintext[..]))
    ensures r.Ok? ==> fresh(r.value) && r.value !in {firstBlock, polyKey, ciphertext, tag}
    ensures r.Ok? ==> Cleared(firstBlock, 64) && Cleared(polyKey, 32)
    ensures r.Ok? ==> Cleared(ciphertext, plaintext.Length) && Cleared(tag, 16)
    ensures r.Ok? ==> fresh({firstBlock, polyKey, ciphertext, tag}) && |{firstBlock, polyKey, ciphertext, tag}| == 4
  {
    firstBlock, polyKey, ciphertext, tag := null, null, null, null;
    if |key| != 32 {
      return Err(KeyLength), null, null, null, null;
    }
    if |nonce| != 12 {
      return Err(NonceLength), null, null, null, null;
    }
    var sealed, first, poly, cipher, mac := SealWith(key, nonce, aad, plaintext);
    ClearFour(first, poly, cipher, mac);
    r := Ok(sealed);
    firstBlock, polyKey, ciphertext, tag := first, poly, cipher, mac;
  }

  /** Seals; also returns the four arrays to clear. */
  method SealWith(key: Bytes, nonce: Bytes, aad: Bytes, plaintext: array<byte>)
    returns (sealed: array<byte>, firstBlock: array<byte>, polyKey: array<byte>,
             ciphertext: array<byte>, tag: array<byte>)
    requires |key| == 32 && |nonce| == 12
    ensures fresh(sealed) && Sealed(key, nonce, aad, plaintext[..]) == Ok(sealed[..])
    ensures fresh({firstBlock, polyKey, ciphertext, tag}) && |{firstBlock, polyKey, ciphertext, tag}| == 4
    ensures firstBlock.Length == 64 && polyKey.Length == 32 && ciphertext.Length == plaintext.Length && tag.Length == 16
    ensures sealed !in {firstBlock, polyKey, ciphertext, tag}
  {
    polyKey, firstBlock := OneTimeKey(key, nonce);
    ghost var blocks;
    ciphertext, blocks := ChaCha20Xor(key, nonce, 1, plaintext);
    var result, _, _ := Poly1305Authenticate(polyKey[..], aad, ciphertext[..]);
    tag := result.value;
    sealed := Join(ciphertext, tag);
  }

  ghost predicate Agrees(r: Result<array<byte>, Error>, spec: Result<Bytes, Error>)
    reads if r.Ok? then {r.value} else {}
  {
    match r
    case Ok(a) => spec == Ok(a[..])
    case Err(e) => spec == Err(e)
  }

  method Join(a: array<byte>, b: array<byte>) returns (joined: array<byte>)
    ensures fresh(joined) && joined[..] == a[..] + b[..]
  {
    joined := new byte[a.Length + b.Length];
    SetBytes(joined, a[..], 0);
    ghost var first := joined[..a.Length];
    SetBytes(joined, b[..], a.Length);
    assert first == a[..];
  }

  /** Compares the tag; also returns the three arrays made for that. */
  method CheckTag(key: Bytes, nonce: Bytes, aad: Bytes, payload: Bytes, tag: Bytes)
    returns (equal: bool, polyKey: array<byte>, firstBlock: array<byte>, expected: array<byte>)
    requires |key| == 32 && |nonce| == 12
    ensures equal <==> TagOf(key, nonce, aad, payload) == tag
    ensures fresh({polyKey, firstBlock, expected}) && |{polyKey, firstBlock, expected}| == 3
    ensures firstBlock.Length == 64 && polyKey.Length == 32 && expected.Length == 16
  {
    polyKey, firstBlock := OneTimeKey(key, nonce);
    var result, _, _ := Poly1305Authenticate(polyKey[..], aad, payload);
    expected := result.value;
    equal := ConstantTimeEquals(expected[..], tag);
  }

  /** The plaintext in a new array, or the error; the five arrays made on the way are zero in either case. */
  method Open(key: Bytes, nonce: Bytes, aad: Bytes, ciphertext: array<byte>)
    returns (r: Result<array<byte>, Error>, ghost payload: array?<byte>, ghost tag: array?<byte>,
             ghost firstBlock: array?<byte>, ghost polyKey: array?<byte>, ghost expectedTag: array?<byte>)
    ensures Agrees(r, Opened(key, nonce, aad, ciphertext[..]))
    ensures r.Ok? ==> fresh(r.value) && r.value !in {payload, tag, firstBlock, polyKey, expectedTag}
    ensures r.Ok? || r == Err(Authentication) ==>
              && Cleared(payload, ciphertext.Length - 16) && Cleared(tag, 16)
              && Cleared(firstBlock, 64) && Cleared(polyKey, 32) && Cleared(expectedTag, 16)
              && fresh({payload, tag, firstBlock, polyKey, expectedTag})
              && |{payload, tag, firstBlock, polyKey, expectedTag}| == 5
  {
    payload, tag, firstBlock, polyKey, expectedTag := null, null, null, null, null;
    if ciphertext.Length < 16 {
      return Err(MissingTag), null, null, null, null, null;
    }
    if |key| != 32 {
      return Err(KeyLength), null, null, null, null, null;
    }
    if |nonce| != 12 {
      return Err(NonceLength), null, null, null, null, null;
    }
    var data, mac, first, poly, expected;
    r, data, mac, first, poly, expected := OpenWith(key, nonce, aad, ciphertext);
    ClearBytes(data);
    ClearFour(mac, first, poly, expected);
    payload, tag, firstBlock, polyKey, expectedTag := data, mac, first, poly, expected;
  }

  /** Opens; also returns the five arrays to clear. */
  method OpenWith(key: Bytes, nonce: Bytes, aad: Bytes, ciphertext: array<byte>)
    returns (r: Result<array<byte>, Error>, payload: array<byte>, tag: array<byte>,
             firstBlock: array<byte>, polyKey: array<byte>, expected: array<byte>)
    requires |key| == 32 && |nonce| == 12 && ciphertext.Length >= 16
    ensures Agrees(r, Opened(key, nonce, aad, ciphertext[..]))
    ensures r.Ok? ==> fresh(r.value) && r.value !in {payload, tag, firstBlock, polyKey, expected}
    ensures payload.Length == ciphertext.Length - 16 && tag.Length == 16
    ensures firstBlock.Length == 64 && polyKey.Length == 32 && expected.Length == 16
    ensures fresh({payload, tag, firstBlock, polyKey, expected})
    ensures |{payload, tag, firstBlock, polyKey, expected}| == 5
  {
    var tagOffset := ciphertext.Length - 16;
    payload := NewBytes(ciphertext[..tagOffset]);
    tag := NewBytes(ciphertext[tagOffset..]);
    OpenedCases(key, nonce, aad, ciphertext[..], payload[..], tag[..]);
    var equal;
    equal, polyKey, firstBlock, expected := CheckTag(key, nonce, aad, payload[..], tag[..]);
    assert {payload, tag, firstBlock, polyKey, expected} == {polyKey, firstBlock, expected} + {payload, tag};
    if equal {
      var plaintext, _ := ChaCha20Xor(key, nonce, 1, payload);
      r := Ok(plaintext);
    } else {
      r := Err(Authentication);
    }
  }

  lemma {:induction false} OpenedCases(
    key: Bytes, nonce: Bytes, aad: Bytes, ciphertext: Bytes, payload: Bytes, tag: Bytes)
    requires |key| == 32 && |nonce| == 12 && |ciphertext| >= 16
    requires payload == ciphertext[..|ciphertext| - 16] && tag == ciphertext[|ciphertext| - 16..]
    ensures Opened(key, nonce, aad, ciphertext)
         == if TagOf(key, nonce, aad, payload) != tag then Err(Authentication)
            else Ok(Crypt(BlockOf(key, nonce), 1, payload))
  {
  }
}
