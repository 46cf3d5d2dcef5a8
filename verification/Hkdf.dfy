/** HKDF-Expand of section 2.3 of RFC 5869, over any keyed 32-byte hash. */
module Hkdf {
  import opened Basics
  import opened Buffers

  type Digest = b: Bytes | |b| == 32 witness Zeros(32)

  type Mac = Bytes -> Digest

  /** The `n`-th block; the counter byte is the last byte of the number. */
  function Block(mac: Mac, info: Bytes, n: nat): Bytes {
    if n == 0 then [] else mac(Block(mac, info, n - 1) + info + [CounterByte(n)])
  }

  function Material(mac: Mac, info: Bytes, n: nat): (r: Bytes)
    ensures |r| == 32 * n
  {
    if n == 0 then [] else Material(mac, info, n - 1) + Block(mac, info, n)
  }

  function BlocksFor(length: nat): (n: nat)
    ensures length <= 32 * n < length + 32
  {
    (length + 31) / 32
  }

  function Expanded(mac: Mac, info: Bytes, length: nat): (r: Bytes)
    ensures |r| == length
  {
    Material(mac, info, BlocksFor(length))[..length]
  }

  /** A shorter output is the beginning of a longer one. */
  lemma {:induction false} ExpandedPrefix(mac: Mac, info: Bytes, short: nat, long: nat)
    requires short <= long
    ensures Expanded(mac, info, long)[..short] == Expanded(mac, info, short)
  {
    MaterialPrefix(mac, info, BlocksFor(short), BlocksFor(long));
  }

  lemma {:induction false} MaterialPrefix(mac: Mac, info: Bytes, m: nat, n: nat)
    requires m <= n
    ensures Material(mac, info, n)[..32 * m] == Material(mac, info, m)
  {
    if m < n {
      MaterialPrefix(mac, info, m, n - 1);
    }
  }

  lemma {:induction false} MaterialAt(mac: Mac, info: Bytes, n: nat, k: nat)
    requires k < n
    ensures Material(mac, info, n)[32 * k..32 * (k + 1)] == Block(mac, info, k + 1)
  {
    if k < n - 1 {
      MaterialAt(mac, info, n - 1, k);
    }
  }

  /**
   Section 2.3 of RFC 5869, read off the output alone: its blocks of 32 bytes are the hash of the block before,
   the info and the number of the block.
   */
  lemma {:induction false} ExpandedBlocks(mac: Mac, info: Bytes, length: nat, k: nat)
    requires 32 * (k + 1) <= length
    ensures var okm := Expanded(mac, info, length);
            var previous := if k == 0 then [] else okm[32 * (k - 1)..32 * k];
            okm[32 * k..32 * (k + 1)] == mac(previous + info + [CounterByte(k + 1)])
  {
    MaterialAt(mac, info, BlocksFor(length), k);
    SliceOfPrefix(Material(mac, info, BlocksFor(length)), length, 32 * k, 32 * (k + 1));
    if k > 0 {
      MaterialAt(mac, info, BlocksFor(length), k - 1);
      SliceOfPrefix(Material(mac, info, BlocksFor(length)), length, 32 * (k - 1), 32 * k);
    }
  }

  lemma {:induction false} SliceOfPrefix(b: Bytes, n: nat, i: nat, j: nat)
    requires i <= j <= n <= |b|
    ensures b[..n][i..j] == b[i..j]
  {
  }

  /** The byte that the `n`-th block is given for its number. */
  function CounterByte(n: nat): byte { n % 256 }

  /** No two blocks of an output of this length have the same counter byte. */
  ghost predicate CountersDistinct(length: nat) {
    forall m: nat, n: nat :: 1 <= m < n <= BlocksFor(length) ==> CounterByte(m) != CounterByte(n)
  }

  /** Every block of an output of this length is numbered as the standard numbers it, from 1 in one octet. */
  ghost predicate CountersStandard(length: nat) {
    forall n: nat :: 1 <= n <= BlocksFor(length) ==> CounterByte(n) == n
  }

  lemma {:induction false} CountersDistinctIff(length: nat)
    ensures CountersDistinct(length) <==> length <= 256 * 32
  {
    if length > 256 * 32 {
      assert CounterByte(1) == CounterByte(257);
    }
  }

  lemma {:induction false} CountersStandardIff(length: nat)
    ensures CountersStandard(length) <==> length <= 255 * 32
  {
    if length > 255 * 32 {
      assert CounterByte(256) != 256;
    }
  }

  ghost predicate AllZero(arrays: set<array<byte>>)
    reads arrays
  {
    forall a :: a in arrays ==> ZeroBytes(a)
  }

  /**
   The blocks are laid out in one array, of which the output is a copy.  That array is zero in the
   end, and so are all the others: the input and the block of every turn and the empty first block.
   */
  method HkdfExpand(mac: Mac, info: Bytes, length: nat)
    returns (okm: array<byte>, ghost result: array<byte>, ghost others: set<array<byte>>)
    ensures fresh(okm) && okm[..] == Expanded(mac, info, length)
    ensures fresh(result) && result.Length == 32 * BlocksFor(length) && ZeroBytes(result) && okm != result
    ensures fresh(others) && AllZero(others) && okm !in others && result !in others
    ensures |others| == 2 * BlocksFor(length) + 1
  {
    var blocks := BlocksFor(length);
    var material := new byte[32 * blocks];
    var previous := new byte[0];
    others := {};
    for counter := 1 to blocks + 1
      invariant fresh(previous) && fresh(others) && |others| == 2 * (counter - 1)
      invariant previous != material && previous !in others && material !in others && AllZero(others)
      invariant previous[..] == Block(mac, info, counter - 1)
      invariant material[..32 * (counter - 1)] == Material(mac, info, counter - 1)
    {
      ghost var input;
      ghost var was := previous;
      previous, input := Turn(mac, info, material, previous, counter, others);
      others := others + {was, input};
    }
    okm := NewBytes(material[..length]);
    Clear(previous, material, okm, others);
    result := material;
    others := others + {previous};
  }

  /** One turn: the next block goes into place, and its input and the block before it are cleared. */
  method Turn(
    mac: Mac, info: Bytes, material: array<byte>, previous: array<byte>, counter: nat, ghost cleared: set<array<byte>>)
    returns (block: array<byte>, ghost input: array<byte>)
    requires 1 <= counter && 32 * counter <= material.Length
    requires previous != material && previous !in cleared && material !in cleared && AllZero(cleared)
    requires previous[..] == Block(mac, info, counter - 1)
    requires material[..32 * (counter - 1)] == Material(mac, info, counter - 1)
    modifies material, previous
    ensures fresh(block) && block[..] == Block(mac, info, counter)
    ensures material[..32 * counter] == Material(mac, info, counter)
    ensures fresh(input) && input != block && ZeroBytes(input) && ZeroBytes(previous) && AllZero(cleared)
  {
    block, input := NextBlock(mac, info, previous, counter);
    SetBytes(material, block[..], 32 * (counter - 1));
    ClearBytes(previous);
  }

  /** Clears the last two arrays, once the output has been copied. */
  method Clear(previous: array<byte>, material: array<byte>, okm: array<byte>, ghost cleared: set<array<byte>>)
    requires previous != material && previous != okm && material != okm
    requires previous !in cleared && material !in cleared && AllZero(cleared)
    modifies previous, material
    ensures ZeroBytes(previous) && ZeroBytes(material) && AllZero(cleared)
    ensures okm[..] == old(okm[..])
  {
    ClearBytes(previous);
    ClearBytes(material);
  }

  /** The next block, from an input that is zero afterwards. */
  method NextBlock(mac: Mac, info: Bytes, previous: array<byte>, counter: nat)
    returns (block: array<byte>, ghost input: array<byte>)
    ensures fresh(block) && block[..] == mac(previous[..] + info + [CounterByte(counter)])
    ensures fresh(input) && ZeroBytes(input) && input != block
    ensures input.Length == previous.Length + |info| + 1
  {
    var buffer := NewBytes(previous[..] + info + [CounterByte(counter)]);
    var digest := mac(buffer[..]);
    block := NewBytes(digest);
    ClearBytes(buffer);
    input := buffer;
  }
}
