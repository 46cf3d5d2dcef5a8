/** A counter-mode stream over any function from 32-bit counters to 64-byte blocks. */
module Keystream {
  import opened Basics
  import opened Bitwise

  type Block64 = b: Bytes | |b| == 64 witness Zeros(64)

  type BlockAt = u32 -> Block64

  /** A 32-bit counter wraps to zero. */
  function Increment(ctr: u32): u32 {
    if ctr == 0xffff_ffff then 0 else ctr + 1
  }

  /** The counter after `n` blocks. */
  function CounterAfter(counter: u32, n: nat): u32 {
    if n == 0 then counter else Increment(CounterAfter(counter, n - 1))
  }

  /** The 32-bit number a number wraps to. */
  function Wrap(n: nat): u32 {
    n % 0x1_0000_0000
  }

  lemma {:induction false} WrapNext(n: nat)
    ensures Wrap(n + 1) == Increment(Wrap(n))
  {
  }

  lemma {:induction false} WrapSmall(n: nat)
    requires n < 0x1_0000_0000
    ensures Wrap(n) == n
  {
  }

  lemma {:induction false} WrapAgain(n: nat)
    ensures Wrap(n + 0x1_0000_0000) == Wrap(n)
  {
  }

  lemma {:induction false} WrapDiffer(m: nat, n: nat)
    requires m < n < m + 0x1_0000_0000
    ensures Wrap(m) != Wrap(n)
  {
  }

  lemma {:induction false} CounterAfterIs(counter: u32, n: nat)
    ensures CounterAfter(counter, n) == Wrap(counter + n)
  {
    if n > 0 {
      CounterAfterIs(counter, n - 1);
      WrapNext(counter + n - 1);
    } else {
      WrapSmall(counter);
    }
  }

  /** The blocks with the `n` counters from `counter` on, one after another. */
  function Stream(block: BlockAt, counter: u32, n: nat): (r: Bytes)
    ensures |r| == 64 * n
  {
    if n == 0 then [] else Stream(block, counter, n - 1) + block(CounterAfter(counter, n - 1))
  }

  /** Byte `j` of the `k`-th block of the stream is byte `j` of the block with the `k`-th counter. */
  lemma {:induction false} StreamAt(block: BlockAt, counter: u32, n: nat, k: nat, j: nat)
    requires k < n && j < 64
    ensures 64 * k + j < 64 * n
    ensures Stream(block, counter, n)[64 * k + j] == block(CounterAfter(counter, k))[j]
  {
    if k < n - 1 {
      StreamAt(block, counter, n - 1, k, j);
    }
  }

  function XorEach(data: Bytes, pad: Bytes): (r: Bytes)
    requires |data| <= |pad|
    ensures |r| == |data|
    ensures forall i :: 0 <= i < |data| ==> r[i] == XorByte(data[i], pad[i])
  {
    seq(|data|, i requires 0 <= i < |data| <= |pad| => XorByte(data[i], pad[i]))
  }

  lemma {:induction false} XorEachTwice(data: Bytes, pad: Bytes)
    requires |data| <= |pad|
    ensures XorEach(XorEach(data, pad), pad) == data
  {
    forall i | 0 <= i < |data| ensures XorEach(XorEach(data, pad), pad)[i] == data[i] {
      XorByteCancel(data[i], pad[i]);
    }
  }

  /** The number of blocks a message takes. */
  function Blocks(length: nat): (n: nat)
    ensures length <= 64 * n < length + 64
  {
    (length + 63) / 64
  }

  /** Section 2.4 of RFC 8439. */
  function Crypt(block: BlockAt, counter: u32, data: Bytes): (r: Bytes)
    ensures |r| == |data|
  {
    XorEach(data, Stream(block, counter, Blocks(|data|)))
  }

  /** Applying the stream twice gives the data back. */
  lemma {:induction false} CryptTwice(block: BlockAt, counter: u32, data: Bytes)
    ensures Crypt(block, counter, Crypt(block, counter, data)) == data
  {
    XorEachTwice(data, Stream(block, counter, Blocks(|data|)));
  }

  /** Byte `j` of data block `k` is combined with byte `j` of the cipher block `k` after the first, modulo 2^32. */
  lemma {:induction false} CryptAt(block: BlockAt, counter: u32, data: Bytes, k: nat, j: nat)
    requires j < 64 && 64 * k + j < |data|
    ensures Crypt(block, counter, data)[64 * k + j]
            == XorByte(data[64 * k + j], block(Wrap(counter + k))[j])
  {
    StreamAt(block, counter, Blocks(|data|), k, j);
    CounterAfterIs(counter, k);
  }

  /** No block of a message, counted from 1, uses the counter 0 of the one-time authentication key. */
  ghost predicate AvoidsZero(length: nat) {
    forall k: nat :: k < Blocks(length) ==> CounterAfter(1, k) != 0
  }

  /** No two blocks of a message use the same counter. */
  ghost predicate NeverRepeats(counter: u32, length: nat) {
    forall i: nat, k: nat :: i < k < Blocks(length) ==> CounterAfter(counter, i) != CounterAfter(counter, k)
  }

  /** The authentication key's block is kept apart exactly when the message has fewer than 2^32 blocks. */
  lemma {:induction false} AvoidsZeroIff(length: nat)
    ensures AvoidsZero(length) <==> length <= 64 * 0xffff_ffff
  {
    if length <= 64 * 0xffff_ffff {
      forall k: nat | k < Blocks(length) ensures CounterAfter(1, k) != 0 {
        CounterAfterIs(1, k);
        WrapSmall(1 + k);
      }
    } else {
      ReachesZero(0xffff_ffff);
    }
  }

  lemma {:induction false} ReachesZero(k: nat)
    requires k == 0xffff_ffff
    ensures CounterAfter(1, k) == 0
  {
    CounterAfterIs(1, k);
    WrapAgain(0);
    WrapSmall(0);
  }

  lemma {:induction false} NeverRepeatsIff(counter: u32, length: nat)
    ensures NeverRepeats(counter, length) <==> length <= 64 * 0x1_0000_0000
  {
    if length <= 64 * 0x1_0000_0000 {
      forall i: nat, k: nat | i < k < Blocks(length)
        ensures CounterAfter(counter, i) != CounterAfter(counter, k)
      {
        CounterAfterIs(counter, i);
        CounterAfterIs(counter, k);
        WrapDiffer(counter + i, counter + k);
      }
    } else {
      Repeats(counter, 0, 0x1_0000_0000);
    }
  }

  lemma {:induction false} Repeats(counter: u32, i: nat, k: nat)
    requires k == i + 0x1_0000_0000
    ensures CounterAfter(counter, i) == CounterAfter(counter, k)
  {
    CounterAfterIs(counter, i);
    CounterAfterIs(counter, k);
    WrapAgain(counter + i);
  }
}
