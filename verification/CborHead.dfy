/**
 The heads of CBOR data items, section 3 of RFC 8949: major type, argument or indefinite length, the
 size classes in which an argument can be written, and the shortest of them.
 */
module CborHead {
  import opened Basics

  /** The major type, the argument or none if the length is indefinite, and the number of bytes of the head. */
  datatype Head = Head(major: nat, argument: Option<nat>, length: nat)

  datatype Fault = Truncated | Malformed

  function BigEndian(v: nat, n: nat): (r: Bytes)
    ensures |r| == n
  {
    if n == 0 then [] else BigEndian(v / 256, n - 1) + [v % 256]
  }

  function FromBigEndian(b: Bytes): nat {
    if b == [] then 0 else 256 * FromBigEndian(b[..|b| - 1]) + b[|b| - 1]
  }

  function Limit(n: nat): (r: nat)
    ensures r >= 1
  {
    if n == 0 then 1 else 256 * Limit(n - 1)
  }

  lemma {:induction false} FromToBigEndian(v: nat, n: nat)
    requires v < Limit(n)
    ensures FromBigEndian(BigEndian(v, n)) == v
  {
    if n > 0 {
      FromToBigEndian(v / 256, n - 1);
      assert BigEndian(v, n)[..n - 1] == BigEndian(v / 256, n - 1);
    }
  }

  lemma {:induction false} Limits()
    ensures Limit(1) == 0x100 && Limit(2) == 0x1_0000 && Limit(4) == 0x1_0000_0000
    ensures Limit(8) == 0x1_0000_0000_0000_0000
  {
    assert Limit(4) == 0x1_0000_0000;
  }

  lemma {:induction false} FromBigEndianBound(b: Bytes)
    ensures FromBigEndian(b) < Limit(|b|)
  {
    if b != [] {
      FromBigEndianBound(b[..|b| - 1]);
    }
  }

  /** How many bytes follow the first one; 31 stands for an indefinite length, and 28 to 30 for nothing. */
  function Following(info: nat): nat {
    if info == 24 then 1 else if info == 25 then 2 else if info == 26 then 4 else if info == 27 then 8 else 0
  }

  /** A head of a given size class, which need not be the shortest that holds the argument. */
  function Encoded(major: nat, info: nat, argument: nat): (r: Bytes)
    requires major < 8 && info < 28
    ensures |r| == 1 + Following(info)
  {
    [32 * major + info] + BigEndian(argument, Following(info))
  }

  /** Whether a size class can hold an argument. */
  predicate Holds(info: nat, argument: nat) {
    info < 28 && if info < 24 then argument == info else argument < Limit(Following(info))
  }

  /** The digit of weight `256^k` in base 256. */
  function Digit(v: nat, k: nat): byte {
    v / Limit(k) % 256
  }

  lemma {:induction false} DivideTwice(v: nat, n: nat)
    requires n >= 1
    ensures v / 256 / n == v / (256 * n)
  {
    var q, r := v / 256, v % 256;
    var a, b := q / n, q % n;
    assert v == 256 * (n * a + b) + r;
    assert v == (256 * n) * a + (256 * b + r);
    Quotient(v, 256 * n, a, 256 * b + r);
  }

  lemma {:induction false} Quotient(v: nat, d: nat, a: int, r: nat)
    requires d >= 1 && v == d * a + r && r < d
    ensures v / d == a
  {
    var q := v / d;
    assert v == d * q + v % d;
    Cancel(d, q, a + 1);
    Cancel(d, a, q + 1);
  }

  lemma {:induction false} Cancel(d: nat, x: int, y: int)
    requires d * x < d * y
    ensures x < y
  {
  }

  lemma {:induction false} BigEndianAt(v: nat, n: nat, i: nat)
    requires i < n
    ensures BigEndian(v, n)[i] == Digit(v, n - 1 - i)
  {
    if i < n - 1 {
      BigEndianAt(v / 256, n - 1, i);
      DivideTwice(v, Limit(n - 2 - i));
    }
  }

  /** Section 3 of RFC 8949: the argument follows the first byte with its most significant digit first. */
  lemma {:induction false} EncodedDigits(major: nat, info: nat, argument: nat, k: nat)
    requires major < 8 && info < 28 && 1 <= k <= Following(info)
    ensures Encoded(major, info, argument)[k] == Digit(argument, Following(info) - k)
  {
    BigEndianAt(argument, Following(info), k - 1);
  }

  /** The number that a head is read as has the digits that follow the first byte. */
  lemma {:induction false} ReadDigits(b: Bytes, k: nat)
    requires ReadHead(b).Ok? && ReadHead(b).value.argument.Some? && 1 <= k < ReadHead(b).value.length
    ensures b[k] == Digit(ReadHead(b).value.argument.value, ReadHead(b).value.length - 1 - k)
  {
    var h := ReadHead(b).value;
    ReadIsEncoded(b);
    EncodedDigits(h.major, b[0] % 32, h.argument.value, k);
    assert b[k] == Encoded(h.major, b[0] % 32, h.argument.value)[k];
  }

  /** Encodings of appendix A of RFC 8949. */
  lemma {:induction false} HeadVectors()
    ensures Written(0, 10) == [0x0a] && Written(0, 100) == [0x18, 0x64] && Written(0, 1000) == [0x19, 0x03, 0xe8]
    ensures Written(0, 1_000_000) == [0x1a, 0x00, 0x0f, 0x42, 0x40]
  {
    assert BigEndian(3906, 3) == [0x00, 0x0f, 0x42];
  }

  /** The shortest size class for an argument. */
  function Shortest(argument: nat): (info: nat)
    ensures info < 28
  {
    if argument < 24 then argument
    else if argument < 0x100 then 24
    else if argument < 0x1_0000 then 25
    else if argument < 0x1_0000_0000 then 26
    else 27
  }

  lemma {:induction false} ShortestHolds(argument: u64)
    ensures Holds(Shortest(argument), argument)
    ensures forall info :: Holds(info, argument) ==> Following(Shortest(argument)) <= Following(info)
  {
    Limits();
  }

  lemma {:induction false} ArgumentBound(info: nat, argument: nat)
    requires Holds(info, argument)
    ensures argument < 0x1_0000_0000_0000_0000
  {
    Limits();
  }

  /** The head an encoder writes. */
  function Written(major: nat, argument: u64): Bytes
    requires major < 8
  {
    Encoded(major, Shortest(argument), argument)
  }

  /** Strings, arrays and maps may have an indefinite length; of major type 7 this is the break that ends them. */
  predicate HasIndefinite(major: nat) {
    2 <= major <= 5 || major == 7
  }

  /** The head at the beginning of the bytes. */
  function ReadHead(b: Bytes): (r: Result<Head, Fault>)
    ensures r.Ok? ==> 1 <= r.value.length <= |b|
  {
    if b == [] then Err(Truncated)
    else
      var info := b[0] % 32;
      var n := Following(info);
      if info == 31 then
        if HasIndefinite(b[0] / 32) then Ok(Head(b[0] / 32, None, 1)) else Err(Malformed)
      else if info >= 28 then Err(Malformed)
      else if |b| < 1 + n then Err(Truncated)
      else Ok(Head(b[0] / 32, Some(if info < 24 then info else FromBigEndian(b[1..1 + n])), 1 + n))
  }

  /** Every encoding of an argument reads back, whatever follows it. */
  lemma {:induction false} ReadEncoded(major: nat, info: nat, argument: nat, rest: Bytes)
    requires major < 8 && Holds(info, argument)
    ensures ReadHead(Encoded(major, info, argument) + rest) == Ok(Head(major, Some(argument), 1 + Following(info)))
  {
    var b := Encoded(major, info, argument) + rest;
    assert b[1..1 + Following(info)] == BigEndian(argument, Following(info));
    ReadParts(b, major, info, argument);
  }

  lemma {:induction false} ReadParts(b: Bytes, major: nat, info: nat, argument: nat)
    requires major < 8 && Holds(info, argument) && |b| >= 1 + Following(info)
    requires b[0] == 32 * major + info && b[1..1 + Following(info)] == BigEndian(argument, Following(info))
    ensures ReadHead(b) == Ok(Head(major, Some(argument), 1 + Following(info)))
  {
    FirstByte(major, info);
    ArgumentRead(info, argument);
  }

  lemma {:induction false} FirstByte(major: nat, info: nat)
    requires info < 32
    ensures (32 * major + info) / 32 == major && (32 * major + info) % 32 == info
  {
  }

  lemma {:induction false} ArgumentRead(info: nat, argument: nat)
    requires Holds(info, argument)
    ensures argument == if info < 24 then info else FromBigEndian(BigEndian(argument, Following(info)))
  {
    if info >= 24 {
      FromToBigEndian(argument, Following(info));
    }
  }

  /** What reads as a head is one of the encodings of its argument. */
  lemma {:induction false} ReadIsEncoded(b: Bytes)
    requires ReadHead(b).Ok? && ReadHead(b).value.argument.Some?
    ensures var h := ReadHead(b).value;
            && h.major < 8 && Holds(b[0] % 32, h.argument.value)
            && b == Encoded(h.major, b[0] % 32, h.argument.value) + b[h.length..]
  {
    ReadPrefix(b);
    var h := ReadHead(b).value;
    assert b == b[..h.length] + b[h.length..];
  }

  lemma {:induction false} ReadPrefix(b: Bytes)
    requires ReadHead(b).Ok? && ReadHead(b).value.argument.Some?
    ensures var h := ReadHead(b).value;
            && h.major < 8 && Holds(b[0] % 32, h.argument.value)
            && b[..h.length] == Encoded(h.major, b[0] % 32, h.argument.value)
  {
    var n := Following(b[0] % 32);
    FromBigEndianBound(b[1..1 + n]);
    BigEndianFrom(b[1..1 + n]);
    assert b[..1 + n] == [b[0]] + b[1..1 + n];
    if n == 0 {
      assert b[1..1 + n] == [];
    }
  }

  /** A head without an argument is a single byte. */
  lemma {:induction false} IndefiniteIff(b: Bytes, major: nat)
    ensures ReadHead(b) == Ok(Head(major, None, 1)) <==> HasIndefinite(major) && b != [] && b[0] == 32 * major + 31
    ensures ReadHead(b).Ok? && ReadHead(b).value.argument.None? ==> ReadHead(b).value.length == 1
  {
    if b != [] && HasIndefinite(major) && b[0] == 32 * major + 31 {
      FirstByte(major, 31);
    }
  }

  lemma {:induction false} BigEndianFrom(b: Bytes)
    ensures BigEndian(FromBigEndian(b), |b|) == b
  {
    if b != [] {
      BigEndianFrom(b[..|b| - 1]);
    }
  }
}
