/** The serialised StrongBox: magic bytes and a CBOR array of key id, nonce and sealed bytes. */
module StrongBoxFormat {
  import opened Basics
  import opened CborHead
  import opened SizeInversion
  import opened StaticStrongBox

  const MAGIC: Bytes := [0xb1, 0xb8, 0xf5]

  const ARRAY: nat := 4

  const STRING: nat := 2

  datatype ParseError = Invalid(message: string) | Decoding(field: string)

  const BREAK: nat := 7

  // ---------- printing ----------

  /**
   How a byte string is written: the size class of its head, and before the head the bytes that open
   indefinite-length strings, of which this one is the first segment.
   */
  datatype Form = Form(lead: Bytes, info: nat)

  /** The form an encoder writes. */
  function Plain(value: Bytes): Form {
    Form([], Shortest(|value|))
  }

  function Item(form: Form, value: Bytes): (r: Bytes)
    requires form.info < 28
    ensures |r| == |form.lead| + 1 + Following(form.info) + |value|
  {
    form.lead + (Encoded(STRING, form.info, |value|) + value)
  }

  /** The bytes of a ciphertext in the given forms. */
  function Layout(c: Ciphertext, outer: nat, keyId: Form, nonce: Form, body: Form): Bytes
    requires outer < 28 && keyId.info < 28 && nonce.info < 28 && body.info < 28
  {
    MAGIC + (Encoded(ARRAY, outer, 3) + (Item(keyId, c.keyId) + (Item(nonce, c.nonce) + Item(body, c.body))))
  }

  /** The sealed bytes have a length that a head can hold. */
  predicate Printable(c: Ciphertext) {
    |c.body| < 0x1_0000_0000_0000_0000
  }

  function Printed(c: Ciphertext): Bytes {
    Layout(c, Shortest(3), Plain(c.keyId), Plain(c.nonce), Plain(c.body))
  }

  /** Writes heads and byte strings to the end of a buffer. */
  class Encoder {
    var out: Bytes

    constructor (out: Bytes)
      ensures this.out == out
    {
      this.out := out;
    }

    method Push(major: nat, argument: u64)
      requires major < 8
      modifies this
      ensures out == old(out) + Written(major, argument)
    {
      out := out + Written(major, argument);
    }

    method PushBytes(value: Bytes)
      requires |value| < 0x1_0000_0000_0000_0000
      modifies this
      ensures out == old(out) + Item(Plain(value), value)
    {
      Push(STRING, |value|);
      out := out + value;
    }
  }

  method ToBytes(c: Ciphertext) returns (v: Bytes)
    requires Printable(c)
    ensures v == Printed(c)
  {
    var enc := new Encoder(MAGIC);
    enc.Push(ARRAY, 3);
    enc.PushBytes(c.keyId);
    enc.PushBytes(c.nonce);
    enc.PushBytes(c.body);
    v := enc.out;
    Regroup(MAGIC, Written(ARRAY, 3),
            Item(Plain(c.keyId), c.keyId), Item(Plain(c.nonce), c.nonce), Item(Plain(c.body), c.body));
  }

  lemma {:induction false} Regroup(a: Bytes, b: Bytes, c: Bytes, d: Bytes, e: Bytes)
    ensures a + b + c + d + e == a + (b + (c + (d + e)))
  {
  }

  /** The size of the printed form is the plaintext's size plus the overhead the web client computes. */
  lemma {:induction false} PrintedLength(c: Ciphertext, plaintextBytes: nat)
    requires Printable(c) && |c.body| == plaintextBytes + TAG_BYTES
    ensures |Printed(c)| == plaintextBytes + StrongBoxOverhead(plaintextBytes)
  {
  }

  /** The head of a byte string of some length, digit by digit. */
  function StringHead(n: nat): Bytes {
    if n < 24 then [0x40 + n]
    else if n < 0x100 then [0x58, Digit(n, 0)]
    else if n < 0x1_0000 then [0x59, Digit(n, 1), Digit(n, 0)]
    else if n < 0x1_0000_0000 then [0x5a, Digit(n, 3), Digit(n, 2), Digit(n, 1), Digit(n, 0)]
    else [0x5b, Digit(n, 7), Digit(n, 6), Digit(n, 5), Digit(n, 4), Digit(n, 3), Digit(n, 2), Digit(n, 1), Digit(n, 0)]
  }

  lemma {:induction false} ShortestHead(n: nat)
    requires n < 0x1_0000_0000_0000_0000
    ensures Encoded(STRING, Shortest(n), n) == StringHead(n)
  {
    var info := Shortest(n);
    forall k | 1 <= k <= Following(info) ensures Encoded(STRING, info, n)[k] == Digit(n, Following(info) - k) {
      EncodedDigits(STRING, info, n, k);
    }
    SameHead(Encoded(STRING, info, n), StringHead(n), n);
  }

  lemma {:induction false} SameHead(a: Bytes, b: Bytes, n: nat)
    requires |a| == |b| > 0 && a[0] == b[0]
    requires forall k :: 1 <= k < |a| ==> a[k] == Digit(n, |a| - 1 - k)
    requires forall k :: 1 <= k < |b| ==> b[k] == Digit(n, |b| - 1 - k)
    ensures a == b
  {
  }

  /** What is written, byte for byte. */
  lemma {:induction false} PrintedBytes(c: Ciphertext)
    requires Printable(c)
    ensures Printed(c)
         == [0xb1, 0xb8, 0xf5, 0x83, 0x50] + c.keyId + [0x4c] + c.nonce + StringHead(|c.body|) + c.body
  {
    ShortestHead(16);
    ShortestHead(12);
    ShortestHead(|c.body|);
    assert Encoded(ARRAY, Shortest(3), 3) == [0x83];
    FlatItems(c.keyId, c.nonce, StringHead(|c.body|), c.body);
  }

  lemma {:induction false} FlatItems(keyId: Bytes, nonce: Bytes, head: Bytes, body: Bytes)
    ensures MAGIC + ([0x83] + (([] + ([0x50] + keyId)) + (([] + ([0x4c] + nonce)) + ([] + (head + body)))))
         == [0xb1, 0xb8, 0xf5, 0x83, 0x50] + keyId + [0x4c] + nonce + head + body
  {
  }

  // ---------- parsing: specification ----------

  // The parser takes one segment of each string and goes on right after it.  Section 3.2.3 of RFC
  // 8949 forbids an indefinite-length string inside another; `nests` says whether the CBOR library
  // nevertheless reads one.

  /** The length of the next segment, inside `depth` indefinite-length strings, and what follows its head. */
  function FirstSegment(b: Bytes, depth: nat, nests: bool): (r: Option<(nat, Bytes)>)
    decreases |b|
  {
    match ReadHead(b)
    case Err(_) => None
    case Ok(h) =>
      if h.major == STRING && h.argument.Some? then Some((h.argument.value, b[h.length..]))
      else if h.major == STRING && (depth == 0 || nests) then FirstSegment(b[h.length..], depth + 1, nests)
      else if h.major == BREAK && h.argument.None? && depth > 1 then FirstSegment(b[h.length..], depth - 1, nests)
      else None
  }

  function ParseString(b: Bytes, name: string, nests: bool): (r: Result<(nat, Bytes), ParseError>) {
    match ReadHead(b)
    case Err(_) => Err(Decoding(name + " header"))
    case Ok(h) =>
      if h.major != STRING then Err(Invalid("expected " + name))
      else
        match FirstSegment(b, 0, nests)
        case None => Err(Invalid("bad " + name))
        case Some(segment) => Ok(segment)
  }

  /** A byte string that must have `width` bytes, of which at most `size` are looked at. */
  function ParseFixed(
    b: Bytes, width: nat, size: nat, name: string, nests: bool): (r: Result<(Bytes, Bytes), ParseError>)
  {
    match ParseString(b, name, nests)
    case Err(e) => Err(e)
    case Ok((len, rest)) =>
      var n := if size < len then size else len;
      if len == 0 then Err(Invalid("short nonce"))
      else if |rest| < n then Err(Decoding(name))
      else if n != width then Err(Invalid("incorrect " + name + " length"))
      else Ok((rest[..n], rest[n..]))
  }

  function ParseBody(b: Bytes, nests: bool): (r: Result<Bytes, ParseError>) {
    match ParseString(b, "ciphertext", nests)
    case Err(e) => Err(e)
    case Ok((len, rest)) => if |rest| < len then Err(Decoding("ciphertext")) else Ok(rest[..len])
  }

  function ParseItems(b: Bytes, nests: bool): Result<Ciphertext, ParseError> {
    match ParseFixed(b, 16, 32, "key_id", nests)
    case Err(e) => Err(e)
    case Ok((keyId, rest)) =>
      match ParseFixed(rest, 12, 1024, "nonce", nests)
      case Err(e) => Err(e)
      case Ok((nonce, rest')) =>
        match ParseBody(rest', nests)
        case Err(e) => Err(e)
        case Ok(body) => Ok(Ciphertext(keyId, nonce, body))
  }

  function ParseArray(b: Bytes, nests: bool): Result<Ciphertext, ParseError> {
    match ReadHead(b)
    case Err(_) => Err(Decoding("array"))
    case Ok(h) =>
      if h.major != ARRAY || h.argument != Some(3) then Err(Invalid("expected array"))
      else ParseItems(b[h.length..], nests)
  }

  function Parsed(b: Bytes, nests: bool): Result<Ciphertext, ParseError> {
    if |b| < 21 then Err(Invalid("too short"))
    else if b[..3] != MAGIC then Err(Invalid("incorrect magic"))
    else ParseArray(b[3..], nests)
  }

  // ---------- parsing: the decoder ----------

  /** Reads from the front of the bytes that are left. */
  class Decoder {
    const nests: bool
    var left: Bytes

    constructor (b: Bytes, nests: bool)
      ensures left == b && this.nests == nests
    {
      left := b;
      this.nests := nests;
    }

    method PullHead() returns (r: Result<Head, Fault>)
      modifies this
      ensures r == ReadHead(old(left))
      ensures left == if r.Ok? then old(left)[r.value.length..] else old(left)
    {
      r := ReadHead(left);
      if r.Ok? {
        left := left[r.value.length..];
      }
    }

    /** The next part of a string of which `unread` bytes are left, as many as the buffer holds; none at its end. */
    method PullChunk(unread: nat, buffer: array<byte>) returns (r: Result<Option<nat>, Fault>)
      requires buffer.Length > 0
      modifies this, buffer
      ensures var n := if buffer.Length < unread then buffer.Length else unread;
              if n == 0 then r == Ok(None) && left == old(left)
              else if |old(left)| < n then r == Err(Truncated)
              else r == Ok(Some(n)) && left == old(left)[n..] && buffer[..n] == old(left)[..n]
    {
      var n := if buffer.Length < unread then buffer.Length else unread;
      if n == 0 {
        return Ok(None);
      }
      if |left| < n {
        return Err(Truncated);
      }
      for i := 0 to n
        invariant left == old(left)
        invariant forall j :: 0 <= j < i ==> buffer[j] == left[j]
      {
        buffer[i] := left[i];
      }
      left := left[n..];
      r := Ok(Some(n));
    }

    /** Goes on to the first segment of the string whose head has just been read. */
    method PullSegment(head: Head, ghost whole: Bytes) returns (r: Option<nat>)
      requires ReadHead(whole) == Ok(head) && head.major == STRING && left == whole[head.length..]
      modifies this
      ensures match FirstSegment(whole, 0, nests)
              case None => r == None
              case Some((len, rest)) => r == Some(len) && left == rest
    {
      var next := head;
      var depth: nat := 0;
      ghost var at := whole;
      while next.argument.None?
        invariant ReadHead(at) == Ok(next) && left == at[next.length..]
        invariant next.major == STRING || (next.major == BREAK && next.argument.None? && depth > 1)
        invariant FirstSegment(whole, 0, nests) == FirstSegment(at, depth, nests)
        decreases |left|
      {
        if next.major == STRING {
          if depth > 0 && !nests {
            return None;
          }
          depth := depth + 1;
        } else {
          depth := depth - 1;
        }
        at := left;
        var pulled := PullHead();
        if pulled.Err? {
          return None;
        }
        next := pulled.value;
        if next.major != STRING && !(next.major == BREAK && next.argument.None? && depth > 1) {
          return None;
        }
      }
      r := Some(next.argument.value);
    }

    method PullString(name: string) returns (r: Result<nat, ParseError>)
      modifies this
      ensures match ParseString(old(left), name, nests)
              case Err(e) => r == Err(e)
              case Ok((len, rest)) => r == Ok(len) && left == rest
    {
      ghost var whole := left;
      var head := PullHead();
      if head.Err? {
        return Err(Decoding(name + " header"));
      }
      if head.value.major != STRING {
        return Err(Invalid("expected " + name));
      }
      var segment := PullSegment(head.value, whole);
      r := if segment.None? then Err(Invalid("bad " + name)) else Ok(segment.value);
    }

    method PullFixed(width: nat, buffer: array<byte>, name: string) returns (r: Result<Bytes, ParseError>)
      requires buffer.Length > 0
      modifies this, buffer
      ensures match ParseFixed(old(left), width, buffer.Length, name, nests)
              case Err(e) => r == Err(e)
              case Ok((value, rest)) => r == Ok(value) && left == rest
    {
      var len := PullString(name);
      if len.Err? {
        return Err(len.error);
      }
      var chunk := PullChunk(len.value, buffer);
      if chunk.Err? {
        return Err(Decoding(name));
      }
      if chunk.value.None? {
        return Err(Invalid("short nonce"));
      }
      var n := chunk.value.value;
      if n != width {
        return Err(Invalid("incorrect " + name + " length"));
      }
      r := Ok(buffer[..n]);
    }

    /** A byte string of any length, in parts as long as the buffer. */
    method PullBody(buffer: array<byte>) returns (r: Result<Bytes, ParseError>)
      requires buffer.Length > 0
      modifies this, buffer
      ensures r == ParseBody(old(left), nests)
    {
      var len := PullString("ciphertext");
      if len.Err? {
        return Err(len.error);
      }
      ghost var whole := left;
      var unread := len.value;
      var ciphertext: Bytes := [];
      while unread > 0
        invariant |ciphertext| + unread == len.value && |ciphertext| <= |whole|
        invariant ciphertext == whole[..|ciphertext|] && left == whole[|ciphertext|..]
      {
        var chunk := PullChunk(unread, buffer);
        if chunk.Err? {
          return Err(Decoding("ciphertext"));
        }
        var n := chunk.value.value;
        ciphertext := ciphertext + buffer[..n];
        unread := unread - n;
      }
      r := Ok(ciphertext);
    }
  }

  /** One buffer serves the nonce and then the sealed bytes; the key id has its own. */
  method Parse(b: Bytes, nests: bool) returns (r: Result<Ciphertext, ParseError>)
    ensures r == Parsed(b, nests)
  {
    if |b| < 21 {
      return Err(Invalid("too short"));
    }
    if b[..3] != MAGIC {
      return Err(Invalid("incorrect magic"));
    }
    var dec := new Decoder(b[3..], nests);
    var head := dec.PullHead();
    if head.Err? {
      return Err(Decoding("array"));
    }
    if head.value.major != ARRAY || head.value.argument != Some(3) {
      return Err(Invalid("expected array"));
    }
    r := ParseItemsWith(dec);
  }

  method ParseItemsWith(dec: Decoder) returns (r: Result<Ciphertext, ParseError>)
    modifies dec
    ensures r == ParseItems(old(dec.left), dec.nests)
  {
    var small := new byte[32];
    var keyId := dec.PullFixed(16, small, "key_id");
    if keyId.Err? {
      return Err(keyId.error);
    }
    var buffer := new byte[1024];
    var nonce := dec.PullFixed(12, buffer, "nonce");
    if nonce.Err? {
      return Err(nonce.error);
    }
    var body := dec.PullBody(buffer);
    if body.Err? {
      return Err(body.error);
    }
    r := Ok(Ciphertext(keyId.value, nonce.value, body.value));
  }

  // ---------- what the parser accepts ----------

  /** Bytes that, inside `depth` indefinite-length strings, open or close such strings but not the outermost. */
  predicate Opens(lead: Bytes, depth: nat, nests: bool) {
    lead == []
    || (lead[0] == 32 * STRING + 31 && (depth == 0 || nests) && Opens(lead[1..], depth + 1, nests))
    || (lead[0] == 32 * BREAK + 31 && depth > 1 && Opens(lead[1..], depth - 1, nests))
  }

  /** A form in which a byte string of this length is read. */
  predicate Fits(form: Form, length: nat, nests: bool) {
    Holds(form.info, length) && Opens(form.lead, 0, nests)
  }

  /** Bytes that begin with a layout of the ciphertext, in whatever forms. */
  ghost predicate Accepts(b: Bytes, c: Ciphertext, nests: bool) {
    exists outer, keyId, nonce, body, rest :: IsLayout(b, c, outer, keyId, nonce, body, rest, nests)
  }

  ghost predicate IsLayout(
    b: Bytes, c: Ciphertext, outer: nat, keyId: Form, nonce: Form, body: Form, rest: Bytes, nests: bool)
  {
    && Holds(outer, 3) && Fits(keyId, 16, nests) && Fits(nonce, 12, nests) && Fits(body, |c.body|, nests)
    && b == Layout(c, outer, keyId, nonce, body) + rest
  }

  /** A segment of some length is read from all its heads behind all such bytes, ... */
  lemma {:induction false} SegmentRead(lead: Bytes, info: nat, length: nat, rest: Bytes, depth: nat, nests: bool)
    requires Opens(lead, depth, nests) && Holds(info, length)
    ensures FirstSegment(lead + (Encoded(STRING, info, length) + rest), depth, nests) == Some((length, rest))
    decreases |lead|
  {
    var tail := Encoded(STRING, info, length) + rest;
    var b := lead + tail;
    if lead == [] {
      assert b == tail;
      ReadEncoded(STRING, info, length, rest);
      AfterHead(STRING, info, length, rest);
    } else {
      assert b[1..] == lead[1..] + tail;
      if lead[0] == 32 * STRING + 31 {
        IndefiniteIff(b, STRING);
        SegmentRead(lead[1..], info, length, rest, depth + 1, nests);
      } else {
        IndefiniteIff(b, BREAK);
        SegmentRead(lead[1..], info, length, rest, depth - 1, nests);
      }
    }
  }

  /** ... and from nothing else. */
  lemma {:induction false} SegmentWas(b: Bytes, depth: nat, nests: bool) returns (lead: Bytes, info: nat)
    requires FirstSegment(b, depth, nests).Some?
    ensures var (length, rest) := FirstSegment(b, depth, nests).value;
            Opens(lead, depth, nests) && Holds(info, length) && b == lead + (Encoded(STRING, info, length) + rest)
    decreases |b|
  {
    var h := ReadHead(b).value;
    if h.argument.Some? {
      lead, info := [], b[0] % 32;
      ReadIsEncoded(b);
      assert b == [] + b;
    } else {
      var deeper := SegmentInner(b, depth, nests);
      var inner;
      inner, info := SegmentWas(b[1..], deeper, nests);
      lead := [b[0]] + inner;
      var (length, rest) := FirstSegment(b, depth, nests).value;
      Prepended(b, inner, Encoded(STRING, info, length) + rest);
    }
  }

  /** The first byte opens or closes a string, and the segment is found behind it. */
  lemma {:induction false} SegmentInner(b: Bytes, depth: nat, nests: bool) returns (deeper: nat)
    requires FirstSegment(b, depth, nests).Some? && ReadHead(b).value.argument.None?
    ensures b != [] && FirstSegment(b, depth, nests) == FirstSegment(b[1..], deeper, nests)
    ensures if b[0] == 32 * STRING + 31 then (depth == 0 || nests) && deeper == depth + 1
            else b[0] == 32 * BREAK + 31 && depth > 1 && deeper == depth - 1
  {
    var h := ReadHead(b).value;
    IndefiniteIff(b, h.major);
    deeper := if h.major == STRING then depth + 1 else depth - 1;
  }

  lemma {:induction false} Prepended(b: Bytes, front: Bytes, back: Bytes)
    requires b != [] && b[1..] == front + back
    ensures b == ([b[0]] + front) + back && ([b[0]] + front)[1..] == front
  {
    assert b == [b[0]] + b[1..];
  }

  lemma {:induction false} AfterHead(major: nat, info: nat, argument: nat, rest: Bytes)
    requires major < 8 && info < 28
    ensures (Encoded(major, info, argument) + rest)[1 + Following(info)..] == rest
  {
  }

  lemma {:induction false} StringRead(form: Form, value: Bytes, rest: Bytes, name: string, nests: bool)
    requires Fits(form, |value|, nests)
    ensures ParseString(Item(form, value) + rest, name, nests) == Ok((|value|, value + rest))
  {
    var b := Item(form, value) + rest;
    SegmentRead(form.lead, form.info, |value|, value + rest, 0, nests);
    Regroup4(form.lead, Encoded(STRING, form.info, |value|), value, rest);
  }

  lemma {:induction false} Regroup4(a: Bytes, b: Bytes, c: Bytes, d: Bytes)
    ensures (a + (b + c)) + d == a + (b + (c + d))
  {
  }

  lemma {:induction false} StringWas(b: Bytes, name: string, nests: bool) returns (form: Form)
    requires ParseString(b, name, nests).Ok?
    ensures var (len, rest) := ParseString(b, name, nests).value;
            && Fits(form, len, nests)
            && (len <= |rest| ==> b == Item(form, rest[..len]) + rest[len..])
  {
    var (len, rest) := ParseString(b, name, nests).value;
    var lead, info := SegmentWas(b, 0, nests);
    form := Form(lead, info);
    if len <= |rest| {
      assert rest == rest[..len] + rest[len..];
      Regroup4(lead, Encoded(STRING, info, len), rest[..len], rest[len..]);
    }
  }

  /** A string of another width is refused by that name, and an empty one, even for a key id, as a short nonce. */
  lemma {:induction false} WrongWidth(
    form: Form, value: Bytes, rest: Bytes, width: nat, size: nat, name: string, nests: bool)
    requires 0 < width < size && |value| != width && Fits(form, |value|, nests)
    ensures ParseFixed(Item(form, value) + rest, width, size, name, nests)
         == Err(Invalid(if value == [] then "short nonce" else "incorrect " + name + " length"))
  {
    StringRead(form, value, rest, name, nests);
  }

  lemma {:induction false} FixedIff(
    b: Bytes, width: nat, size: nat, name: string, value: Bytes, rest: Bytes, nests: bool)
    requires 0 < width < size
    ensures ParseFixed(b, width, size, name, nests) == Ok((value, rest))
       <==> |value| == width && exists form :: Fits(form, width, nests) && b == Item(form, value) + rest
  {
    if ParseFixed(b, width, size, name, nests) == Ok((value, rest)) {
      var form := StringWas(b, name, nests);
      assert Fits(form, width, nests);
    }
    if form :| |value| == width && Fits(form, width, nests) && b == Item(form, value) + rest {
      StringRead(form, value, rest, name, nests);
      assert (value + rest)[..width] == value && (value + rest)[width..] == rest;
    }
  }

  lemma {:induction false} BodyIff(b: Bytes, value: Bytes, nests: bool)
    ensures ParseBody(b, nests) == Ok(value)
       <==> exists form, rest :: Fits(form, |value|, nests) && b == Item(form, value) + rest
  {
    if ParseBody(b, nests) == Ok(value) {
      var form := StringWas(b, "ciphertext", nests);
      assert Fits(form, |value|, nests);
    }
    if form, rest :| Fits(form, |value|, nests) && b == Item(form, value) + rest {
      StringRead(form, value, rest, "ciphertext", nests);
      assert (value + rest)[..|value|] == value;
    }
  }

  /** The items after the array head. */
  ghost predicate ItemsOf(b: Bytes, c: Ciphertext, keyId: Form, nonce: Form, body: Form, rest: Bytes, nests: bool) {
    && Fits(keyId, 16, nests) && Fits(nonce, 12, nests) && Fits(body, |c.body|, nests)
    && b == Item(keyId, c.keyId) + (Item(nonce, c.nonce) + (Item(body, c.body) + rest))
  }

  lemma {:induction false} ItemsAccepted(
    b: Bytes, c: Ciphertext, keyId: Form, nonce: Form, body: Form, rest: Bytes, nests: bool)
    requires ItemsOf(b, c, keyId, nonce, body, rest, nests)
    ensures ParseItems(b, nests) == Ok(c)
  {
    var afterNonce := Item(body, c.body) + rest;
    var afterKeyId := Item(nonce, c.nonce) + afterNonce;
    FixedIff(b, 16, 32, "key_id", c.keyId, afterKeyId, nests);
    FixedIff(afterKeyId, 12, 1024, "nonce", c.nonce, afterNonce, nests);
    BodyIff(afterNonce, c.body, nests);
  }

  lemma {:induction false} ItemsWere(b: Bytes, c: Ciphertext, nests: bool)
    returns (keyId: Form, nonce: Form, body: Form, rest: Bytes)
    requires ParseItems(b, nests) == Ok(c)
    ensures ItemsOf(b, c, keyId, nonce, body, rest, nests)
  {
    var (v, afterKeyId) := ParseFixed(b, 16, 32, "key_id", nests).value;
    var (w, afterNonce) := ParseFixed(afterKeyId, 12, 1024, "nonce", nests).value;
    FixedIff(b, 16, 32, "key_id", v, afterKeyId, nests);
    FixedIff(afterKeyId, 12, 1024, "nonce", w, afterNonce, nests);
    BodyIff(afterNonce, c.body, nests);
    keyId :| Fits(keyId, 16, nests) && b == Item(keyId, v) + afterKeyId;
    nonce :| Fits(nonce, 12, nests) && afterKeyId == Item(nonce, w) + afterNonce;
    body, rest :| Fits(body, |c.body|, nests) && afterNonce == Item(body, c.body) + rest;
  }

  lemma {:induction false} LayoutParts(c: Ciphertext, outer: nat, keyId: Form, nonce: Form, body: Form, rest: Bytes)
    requires outer < 28 && keyId.info < 28 && nonce.info < 28 && body.info < 28
    ensures Layout(c, outer, keyId, nonce, body) + rest
         == MAGIC + (Encoded(ARRAY, outer, 3)
                     + (Item(keyId, c.keyId) + (Item(nonce, c.nonce) + (Item(body, c.body) + rest))))
  {
    Append4(MAGIC, Encoded(ARRAY, outer, 3), Item(keyId, c.keyId), Item(nonce, c.nonce), Item(body, c.body), rest);
  }

  lemma {:induction false} Append4(a: Bytes, b: Bytes, c: Bytes, d: Bytes, e: Bytes, f: Bytes)
    ensures (a + (b + (c + (d + e)))) + f == a + (b + (c + (d + (e + f))))
  {
  }

  /** Behind the magic and the array head the items decide. */
  lemma {:induction false} Headed(outer: nat, items: Bytes, nests: bool)
    requires Holds(outer, 3) && |items| >= 17
    ensures Parsed(MAGIC + (Encoded(ARRAY, outer, 3) + items), nests) == ParseItems(items, nests)
  {
    var b := MAGIC + (Encoded(ARRAY, outer, 3) + items);
    ReadEncoded(ARRAY, outer, 3, items);
    AfterHead(ARRAY, outer, 3, items);
    assert b[..3] == MAGIC && b[3..] == Encoded(ARRAY, outer, 3) + items;
  }

  lemma {:induction false} LayoutAccepted(
    b: Bytes, c: Ciphertext, outer: nat, keyId: Form, nonce: Form, body: Form, rest: Bytes, nests: bool)
    requires IsLayout(b, c, outer, keyId, nonce, body, rest, nests)
    ensures Parsed(b, nests) == Ok(c)
  {
    LayoutParts(c, outer, keyId, nonce, body, rest);
    var items := Item(keyId, c.keyId) + (Item(nonce, c.nonce) + (Item(body, c.body) + rest));
    ItemsAccepted(items, c, keyId, nonce, body, rest, nests);
    Headed(outer, items, nests);
  }

  lemma {:induction false} LayoutWas(b: Bytes, c: Ciphertext, nests: bool)
    requires Parsed(b, nests) == Ok(c)
    ensures Accepts(b, c, nests)
  {
    var inner := b[3..];
    ArrayWas(inner, c, nests);
    var items := inner[ReadHead(inner).value.length..];
    var keyId, nonce, body, rest := ItemsWere(items, c, nests);
    LayoutJoined(b, inner, items, c, inner[0] % 32, keyId, nonce, body, rest, nests);
  }

  lemma {:induction false} ArrayWas(inner: Bytes, c: Ciphertext, nests: bool)
    requires ParseArray(inner, nests) == Ok(c)
    ensures var h := ReadHead(inner).value;
            && Holds(inner[0] % 32, 3)
            && inner == Encoded(ARRAY, inner[0] % 32, 3) + inner[h.length..]
            && ParseItems(inner[h.length..], nests) == Ok(c)
  {
    ReadIsEncoded(inner);
  }

  lemma {:induction false} LayoutJoined(
    b: Bytes, inner: Bytes, items: Bytes, c: Ciphertext,
    outer: nat, keyId: Form, nonce: Form, body: Form, rest: Bytes, nests: bool)
    requires |b| >= 3 && b[..3] == MAGIC && b[3..] == inner
    requires Holds(outer, 3) && inner == Encoded(ARRAY, outer, 3) + items
    requires ItemsOf(items, c, keyId, nonce, body, rest, nests)
    ensures Accepts(b, c, nests)
  {
    assert b == MAGIC + inner;
    LayoutParts(c, outer, keyId, nonce, body, rest);
    assert IsLayout(b, c, outer, keyId, nonce, body, rest, nests);
  }

  /** The parser's language: a layout in whatever forms, with anything after it. */
  lemma {:induction false} ParsedIff(b: Bytes, c: Ciphertext, nests: bool)
    ensures Parsed(b, nests) == Ok(c) <==> Accepts(b, c, nests)
  {
    if Parsed(b, nests) == Ok(c) {
      LayoutWas(b, c, nests);
    }
    if Accepts(b, c, nests) {
      var outer, keyId, nonce, body, rest :| IsLayout(b, c, outer, keyId, nonce, body, rest, nests);
      LayoutAccepted(b, c, outer, keyId, nonce, body, rest, nests);
    }
  }

  lemma {:induction false} PlainFits(value: Bytes, nests: bool)
    requires |value| < 0x1_0000_0000_0000_0000
    ensures Fits(Plain(value), |value|, nests)
  {
    ShortestHolds(|value|);
  }

  /** What was printed parses to the same ciphertext, whatever follows it. */
  lemma {:induction false} PrintParse(c: Ciphertext, rest: Bytes, nests: bool)
    requires Printable(c)
    ensures Parsed(Printed(c) + rest, nests) == Ok(c)
  {
    ShortestHolds(3);
    PlainFits(c.keyId, nests);
    PlainFits(c.nonce, nests);
    PlainFits(c.body, nests);
    LayoutAccepted(Printed(c) + rest, c, Shortest(3), Plain(c.keyId), Plain(c.nonce), Plain(c.body), rest, nests);
  }

  /** Of all the inputs that parse to a ciphertext the printed one is a shortest. */
  lemma {:induction false} PrintedShortest(b: Bytes, c: Ciphertext, nests: bool)
    requires Parsed(b, nests) == Ok(c)
    ensures Printable(c) && |Printed(c)| <= |b|
  {
    LayoutWas(b, c, nests);
    var outer, keyId, nonce, body, rest :| IsLayout(b, c, outer, keyId, nonce, body, rest, nests);
    ArgumentBound(body.info, |c.body|);
    ShortestHolds(3);
    ShortestHolds(|c.keyId|);
    ShortestHolds(|c.nonce|);
    ShortestHolds(|c.body|);
  }

  // ---------- indefinite-length strings ----------

  function Joined(segments: seq<Bytes>): Bytes {
    if segments == [] then [] else segments[0] + Joined(segments[1..])
  }

  function Segments(segments: seq<Bytes>): Bytes {
    if segments == [] then [] else Item(Plain(segments[0]), segments[0]) + Segments(segments[1..])
  }

  /** A byte string of indefinite length, as section 3.2.3 of RFC 8949 writes it. */
  function Indefinite(segments: seq<Bytes>): Bytes {
    [32 * STRING + 31] + (Segments(segments) + [32 * BREAK + 31])
  }

  /** The printed form but for the sealed bytes, which come in segments. */
  function PrintedInSegments(keyId: KeyId, nonce: Nonce, segments: seq<Bytes>): Bytes {
    MAGIC + (Encoded(ARRAY, 3, 3) + (Item(Plain(keyId), keyId) + (Item(Plain(nonce), nonce) + Indefinite(segments))))
  }

  /** Sealed bytes in segments are cut after the first, so they are read right exactly if the others are empty. */
  lemma {:induction false} SegmentsCutIff(keyId: KeyId, nonce: Nonce, segments: seq<Bytes>, nests: bool)
    requires segments != [] && |segments[0]| < 0x1_0000_0000_0000_0000
    ensures Parsed(PrintedInSegments(keyId, nonce, segments), nests) == Ok(Ciphertext(keyId, nonce, segments[0]))
    ensures Parsed(PrintedInSegments(keyId, nonce, segments), nests) == Ok(Ciphertext(keyId, nonce, Joined(segments)))
       <==> Joined(segments[1..]) == []
  {
    var first := segments[0];
    var form := Form([32 * STRING + 31], Shortest(|first|));
    var rest := Segments(segments[1..]) + [32 * BREAK + 31];
    IndefiniteIs(segments);
    assert Opens(form.lead, 0, nests) by {
      assert form.lead[1..] == [];
    }
    ShortestHolds(|first|);
    PlainFits(keyId, nests);
    PlainFits(nonce, nests);
    var c := Ciphertext(keyId, nonce, first);
    LayoutParts(c, 3, Plain(keyId), Plain(nonce), form, rest);
    LayoutAccepted(PrintedInSegments(keyId, nonce, segments), c, 3, Plain(keyId), Plain(nonce), form, rest, nests);
    assert |Joined(segments)| == |first| + |Joined(segments[1..])|;
    if Joined(segments[1..]) == [] {
      assert first + [] == first;
    }
  }

  lemma {:induction false} IndefiniteIs(segments: seq<Bytes>)
    requires segments != []
    ensures Indefinite(segments)
         == Item(Form([32 * STRING + 31], Shortest(|segments[0]|)), segments[0])
            + (Segments(segments[1..]) + [32 * BREAK + 31])
  {
    assert [] + (Encoded(STRING, Shortest(|segments[0]|), |segments[0]|) + segments[0])
        == Encoded(STRING, Shortest(|segments[0]|), |segments[0]|) + segments[0];
    IndefiniteParts([32 * STRING + 31], Encoded(STRING, Shortest(|segments[0]|), |segments[0]|) + segments[0],
                    Segments(segments[1..]), [32 * BREAK + 31]);
  }

  lemma {:induction false} IndefiniteParts(a: Bytes, b: Bytes, c: Bytes, d: Bytes)
    ensures a + ((b + c) + d) == (a + b) + (c + d)
  {
  }

  /** A key id in segments is refused even when it is well-formed, because its end is taken for the nonce. */
  lemma {:induction false} SegmentedKeyIdFails(keyId: KeyId, rest: Bytes, nests: bool)
    ensures Parsed(MAGIC + (Encoded(ARRAY, 3, 3) + (Indefinite([keyId]) + rest)), nests)
         == Err(Invalid("expected nonce"))
  {
    var form := Form([32 * STRING + 31], Shortest(16));
    var after := [32 * BREAK + 31] + rest;
    OneSegment(keyId, rest);
    ShortestHolds(16);
    assert Opens(form.lead, 0, nests) by {
      assert form.lead[1..] == [];
    }
    FixedIff(Item(form, keyId) + after, 16, 32, "key_id", keyId, after, nests);
    BreakIsNoString(after, nests);
    Headed(3, Item(form, keyId) + after, nests);
  }

  lemma {:induction false} OneSegment(value: Bytes, rest: Bytes)
    ensures Indefinite([value]) + rest
         == Item(Form([32 * STRING + 31], Shortest(|value|)), value) + ([32 * BREAK + 31] + rest)
  {
    IndefiniteIs([value]);
    assert [value][1..] == [] && Segments([]) == [];
    assert [] + [32 * BREAK + 31] == [32 * BREAK + 31];
  }

  lemma {:induction false} BreakIsNoString(after: Bytes, nests: bool)
    requires after != [] && after[0] == 32 * BREAK + 31
    ensures ParseFixed(after, 12, 1024, "nonce", nests) == Err(Invalid("expected nonce"))
  {
    IndefiniteIff(after, BREAK);
    assert "expected " + "nonce" == "expected nonce";
  }
}
