/**
 The cache key of a decryption: the digest of a domain string, the key, the context and the payload,
 each with its length before it, so that no two requests are framed alike.
 */
module DecryptCacheKey {
  import opened Basics
  import opened LittleEndian
  import opened Buffers

  const LENGTH_PREFIX_BYTES: nat := 4

  const MAX_FIELD_BYTES: nat := 0xffff_ffff

  const FIELD_TOO_LARGE := "StrongBox decrypt cache key field is too large"

  const CACHE_KEY_DOMAIN: Bytes := Ascii("worklist.strong_box.decrypt_cache.v1")

  function Ascii(s: string): Bytes {
    seq(|s|, i requires 0 <= i < |s| => s[i] as int % 128)
  }

  ghost predicate Framable(fields: seq<Bytes>) {
    forall i :: 0 <= i < |fields| ==> |fields[i]| <= MAX_FIELD_BYTES
  }

  function Frame(fields: seq<Bytes>): Bytes {
    if fields == [] then []
    else Frame(fields[..|fields| - 1]) + Field(fields[|fields| - 1])
  }

  function Field(field: Bytes): (r: Bytes)
    ensures |r| == LENGTH_PREFIX_BYTES + |field|
  {
    ToBytes(|field|, LENGTH_PREFIX_BYTES) + field
  }

  lemma {:induction false} Prefixes()
    ensures Pow256(LENGTH_PREFIX_BYTES) == MAX_FIELD_BYTES + 1
  {
    assert Pow256(4) == 0x1_0000_0000;
  }

  lemma {:induction false} FrameSnoc(fields: seq<Bytes>, field: Bytes)
    ensures Frame(fields + [field]) == Frame(fields) + Field(field)
  {
    assert (fields + [field])[..|fields|] == fields;
  }

  /** Reading from the front: a field, then the rest. */
  lemma {:induction false} FrameFront(field: Bytes, rest: seq<Bytes>)
    ensures Frame([field] + rest) == Field(field) + Frame(rest)
  {
    if rest == [] {
      FrameSnoc([], field);
      assert [] + [field] == [field] + rest;
    } else {
      var init, last := rest[..|rest| - 1], rest[|rest| - 1];
      FrameFront(field, init);
      FrameSnoc([field] + init, last);
      assert [field] + init + [last] == [field] + rest;
      Assoc(Field(field), Frame(init), Field(last));
    }
  }

  lemma {:induction false} Assoc(a: Bytes, b: Bytes, c: Bytes)
    ensures (a + b) + c == a + (b + c)
  {
  }

  /** Framing is injective: the boundaries of the fields cannot be moved, and none can be added. */
  lemma {:induction false} FrameInjective(a: seq<Bytes>, b: seq<Bytes>)
    requires Framable(a) && Framable(b) && Frame(a) == Frame(b)
    ensures a == b
  {
    if a != [] {
      FrameFront(a[0], a[1..]);
      assert a == [a[0]] + a[1..];
    }
    if b != [] {
      FrameFront(b[0], b[1..]);
      assert b == [b[0]] + b[1..];
    }
    if a != [] && b != [] {
      SameField(a[0], Frame(a[1..]), b[0], Frame(b[1..]));
      FrameInjective(a[1..], b[1..]);
    }
  }

  lemma {:induction false} SameField(a: Bytes, rest: Bytes, b: Bytes, rest': Bytes)
    requires |a| <= MAX_FIELD_BYTES && |b| <= MAX_FIELD_BYTES
    requires Field(a) + rest == Field(b) + rest'
    ensures a == b && rest == rest'
  {
    var n := LENGTH_PREFIX_BYTES;
    var whole := Field(a) + rest;
    assert ToBytes(|a|, n) == whole[..n] == (Field(b) + rest')[..n] == ToBytes(|b|, n);
    Prefixes();
    ToBytesInjective(|a|, |b|, n);
    assert a == whole[n..n + |a|] && b == (Field(b) + rest')[n..n + |b|];
    assert rest == whole[n + |a|..] && rest' == (Field(b) + rest')[n + |b|..];
  }

  /** The size that the framed fields need. */
  function FramedLength(fields: seq<Bytes>): nat {
    |Frame(fields)|
  }

  lemma {:induction false} FramedPrefix(fields: seq<Bytes>, k: nat)
    requires k <= |fields|
    ensures FramedLength(fields[..k]) <= FramedLength(fields)
  {
    if k < |fields| {
      var rest := fields[..|fields| - 1];
      FramedPrefix(rest, k);
      assert rest[..k] == fields[..k];
    } else {
      assert fields[..k] == fields;
    }
  }

  /** Frames the fields in a new array, or fails if the length of one does not fit its prefix. */
  method FrameCacheKeyFields(fields: seq<Bytes>) returns (r: Result<array<byte>, string>)
    ensures Framable(fields) ==> r.Ok? && fresh(r.value) && r.value[..] == Frame(fields)
    ensures !Framable(fields) ==> r == Err(FIELD_TOO_LARGE)
  {
    var totalLength := 0;
    for k := 0 to |fields|
      invariant Framable(fields[..k]) && totalLength == FramedLength(fields[..k])
    {
      if |fields[k]| > MAX_FIELD_BYTES {
        return Err(FIELD_TOO_LARGE);
      }
      assert fields[..k + 1][..k] == fields[..k];
      totalLength := totalLength + LENGTH_PREFIX_BYTES + |fields[k]|;
    }
    assert fields[..|fields|] == fields;
    var framed := WriteFields(fields, totalLength);
    r := Ok(framed);
  }

  method WriteFields(fields: seq<Bytes>, totalLength: nat) returns (framed: array<byte>)
    requires Framable(fields) && totalLength == FramedLength(fields)
    ensures fresh(framed) && framed[..] == Frame(fields)
  {
    framed := new byte[totalLength];
    var offset := 0;
    for k := 0 to |fields|
      invariant offset == FramedLength(fields[..k]) <= totalLength
      invariant framed[..offset] == Frame(fields[..k])
    {
      FramedPrefix(fields, k + 1);
      assert fields[..k + 1][..k] == fields[..k];
      SetBytes(framed, ToBytes(|fields[k]|, LENGTH_PREFIX_BYTES), offset);
      offset := offset + LENGTH_PREFIX_BYTES;
      SetBytes(framed, fields[k], offset);
      offset := offset + |fields[k]|;
    }
    assert fields[..|fields|] == fields;
  }

  /** Two fields, of two bytes and of none. */
  lemma {:induction false} FrameVector()
    ensures Frame([[7, 8], []]) == [2, 0, 0, 0, 7, 8, 0, 0, 0, 0]
  {
    FrameSnoc([], [7, 8]);
    FrameSnoc([[7, 8]], []);
    assert ToBytes(2, 4) == [2, 0, 0, 0] && ToBytes(0, 4) == [0, 0, 0, 0];
    assert [] + [[7, 8]] == [[7, 8]];
  }
}
