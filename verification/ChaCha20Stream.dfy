/**
 The ChaCha20 block function on arrays and the stream built from it.  Scratch arrays are zeroed
 before each call returns, and the output of one block is the buffer of the next.
 */
module ChaCha20Stream {
  import opened Basics
  import opened LittleEndian
  import opened Bitwise
  import opened Buffers
  import opened Keystream
  import opened ChaCha20

  ghost predicate ZeroWords(a: array<Word>)
    reads a
  {
    forall i :: 0 <= i < a.Length ==> a[i] == 0
  }

  method ClearWords(a: array<Word>)
    modifies a
    ensures ZeroWords(a)
  {
    for i := 0 to a.Length
      invariant forall j :: 0 <= j < i ==> a[j] == 0
    {
      a[i] := 0;
    }
  }

  method WriteWord(target: array<byte>, offset: nat, value: Word)
    requires offset + 4 <= target.Length
    modifies target
    ensures target[offset..offset + 4] == ToBytes(value as nat, 4)
    ensures forall i :: 0 <= i < target.Length && !(offset <= i < offset + 4) ==> target[i] == old(target[i])
  {
    var v := value as nat;
    target[offset] := v % 256;
    target[offset + 1] := v / 256 % 256;
    target[offset + 2] := v / 256 / 256 % 256;
    target[offset + 3] := v / 256 / 256 / 256 % 256;
    assert target[offset..offset + 4] == [v % 256, v / 256 % 256, v / 256 / 256 % 256, v / 256 / 256 / 256 % 256];
    FourBytes(v);
  }

  lemma {:induction false} FourBytes(v: nat)
    ensures ToBytes(v, 4) == [v % 256, v / 256 % 256, v / 256 / 256 % 256, v / 256 / 256 / 256 % 256]
  {
    assert ToBytes(v / 256 / 256, 2) == [v / 256 / 256 % 256] + ToBytes(v / 256 / 256 / 256, 1);
    assert ToBytes(v / 256 / 256 / 256, 1) == [v / 256 / 256 / 256 % 256] + ToBytes(v / 256 / 256 / 256 / 256, 0);
  }

  /** The initial state as an array. */
  method LoadState(key: Bytes, counter: u32, nonce: Bytes) returns (state: array<Word>)
    requires |key| == 32 && |nonce| == 12
    ensures fresh(state) && state[..] == InitialState(key, counter, nonce)
  {
    state := new Word[16];
    LoadConstants(state);
    LoadKey(state, key);
    state[12] := counter as Word;
    state[13] := ReadWord(nonce, 0);
    state[14] := ReadWord(nonce, 4);
    state[15] := ReadWord(nonce, 8);
    assert state[13..] == ReadWords(nonce);
    assert state[4..12] == ReadWords(key);
    assert state[..] == state[..4] + state[4..12] + [state[12]] + state[13..];
  }

  method LoadConstants(state: array<Word>)
    requires state.Length == 16
    modifies state
    ensures state[..4] == CONSTANTS
  {
    state[0] := 0x6170_7865;
    state[1] := 0x3320_646e;
    state[2] := 0x7962_2d32;
    state[3] := 0x6b20_6574;
  }

  method LoadKey(state: array<Word>, key: Bytes)
    requires state.Length == 16 && |key| == 32
    modifies state
    ensures state[..4] == old(state[..4]) && state[4..12] == ReadWords(key)
  {
    for i := 0 to 8
      invariant state[..4] == old(state[..4])
      invariant forall j :: 0 <= j < i ==> state[4 + j] == ReadWords(key)[j]
    {
      state[4 + i] := ReadWord(key, i * 4);
    }
  }

  method RunRounds(working: array<Word>)
    requires working.Length == 16
    modifies working
    ensures working[..] == DoubleRounds(old(working[..]), DOUBLE_ROUNDS)
  {
    for round := 0 to DOUBLE_ROUNDS
      invariant working[..] == DoubleRounds(old(working[..]), round)
    {
      ColumnRound(working);
      DiagonalRound(working);
    }
  }

  method AddState(working: array<Word>, state: array<Word>)
    requires working != state && working.Length == state.Length
    modifies working
    ensures working[..] == AddEach(old(working[..]), state[..])
  {
    ghost var mixed := working[..];
    for i := 0 to working.Length
      invariant forall j :: 0 <= j < i ==> working[j] == AddEach(mixed, state[..])[j]
      invariant forall j :: i <= j < working.Length ==> working[j] == mixed[j]
    {
      working[i] := Add(working[i], state[i]);
    }
  }

  method EmitWords(words: array<Word>, output: array<byte>)
    requires output.Length == 4 * words.Length
    modifies output
    ensures output[..] == WriteWords(words[..])
  {
    for i := 0 to words.Length
      invariant output[..4 * i] == WriteWords(words[..i])
    {
      ghost var before := output[..4 * i];
      WriteWord(output, i * 4, words[i]);
      assert output[..4 * i] == before;
      WrittenNext(output[..], words[..], i);
    }
    assert words[..words.Length] == words[..] && output[..4 * words.Length] == output[..];
  }

  lemma {:induction false} WrittenNext(output: Bytes, words: seq<Word>, i: nat)
    requires i < |words| && |output| == 4 * |words|
    requires output[..4 * i] == WriteWords(words[..i])
    requires output[4 * i..4 * i + 4] == ToBytes(words[i] as nat, 4)
    ensures output[..4 * (i + 1)] == WriteWords(words[..i + 1])
  {
    assert output[..4 * (i + 1)] == output[..4 * i] + output[4 * i..4 * i + 4];
    assert words[..i + 1][..i] == words[..i];
  }

  /**
   Computes one block into the buffer, or into a new array if there is none.  The scratch arrays,
   which held the key and the mixed state, are zero when it returns.
   */
  method ChaCha20Block(key: Bytes, counter: u32, nonce: Bytes, buffer: array?<byte>)
    returns (output: array<byte>, ghost first: array<Word>, ghost second: array<Word>)
    requires |key| == 32 && |nonce| == 12
    requires buffer == null || buffer.Length == 64
    modifies if buffer == null then {} else {buffer}
    ensures output.Length == 64 && output[..] == Block(key, counter, nonce)
    ensures if buffer == null then fresh(output) else output == buffer
    ensures fresh(first) && fresh(second) && ZeroWords(first) && ZeroWords(second)
  {
    if buffer == null {
      output := new byte[64];
    } else {
      output := buffer;
    }
    first, second := EmitBlock(key, counter, nonce, output);
  }

  method EmitBlock(key: Bytes, counter: u32, nonce: Bytes, output: array<byte>)
    returns (ghost first: array<Word>, ghost second: array<Word>)
    requires |key| == 32 && |nonce| == 12 && output.Length == 64
    modifies output
    ensures output[..] == Block(key, counter, nonce)
    ensures fresh(first) && fresh(second) && ZeroWords(first) && ZeroWords(second)
  {
    var state, working := MixInto(key, counter, nonce, output);
    ClearBoth(state, working, output);
    first, second := state, working;
  }

  /** Writes the block; also returns the two arrays to clear. */
  method MixInto(key: Bytes, counter: u32, nonce: Bytes, output: array<byte>)
    returns (state: array<Word>, working: array<Word>)
    requires |key| == 32 && |nonce| == 12 && output.Length == 64
    modifies output
    ensures fresh(state) && fresh(working)
    ensures output[..] == Block(key, counter, nonce)
  {
    state := LoadState(key, counter, nonce);
    working := MixedCopy(state);
    WrittenBlock(key, counter, nonce, working[..]);
    EmitWords(working, output);
  }

  method ClearBoth(a: array<Word>, b: array<Word>, ghost untouched: array<byte>)
    requires (untouched as object) != a && (untouched as object) != b
    modifies a, b
    ensures ZeroWords(a) && ZeroWords(b)
    ensures untouched[..] == old(untouched[..])
  {
    ClearWords(a);
    ClearWords(b);
  }

  lemma {:induction false} WrittenBlock(key: Bytes, counter: u32, nonce: Bytes, mixed: seq<Word>)
    requires |key| == 32 && |nonce| == 12 && mixed == Mixed(InitialState(key, counter, nonce))
    ensures WriteWords(mixed) == Block(key, counter, nonce)
  {
  }

  method MixedCopy(state: array<Word>) returns (working: array<Word>)
    requires state.Length == 16
    ensures fresh(working) && working[..] == Mixed(state[..])
  {
    working := CopyWords(state);
    RunRounds(working);
    AddState(working, state);
  }

  method CopyWords(a: array<Word>) returns (copy: array<Word>)
    ensures fresh(copy) && copy[..] == a[..]
  {
    copy := new Word[a.Length];
    for i := 0 to a.Length
      invariant forall j :: 0 <= j < i ==> copy[j] == a[j]
    {
      copy[i] := a[i];
    }
  }

  // ---------- the stream ----------

  ghost predicate BlocksAre(block: BlockAt, key: Bytes, nonce: Bytes)
    requires |key| == 32 && |nonce| == 12
  {
    forall counter: u32 {:trigger Block(key, counter, nonce)} :: block(counter) == Block(key, counter, nonce)
  }

  /** The block function of a key and a nonce; a name for it that proofs about the stream need not look into. */
  ghost function BlockOf(key: Bytes, nonce: Bytes): (block: BlockAt)
    requires |key| == 32 && |nonce| == 12
    ensures BlocksAre(block, key, nonce)
  {
    assert BlocksAre(counter => Block(key, counter, nonce), key, nonce);
    var block: BlockAt :| BlocksAre(block, key, nonce);
    block
  }

  /** `ChaCha20Block` with the named specification. */
  method EmitNamed(key: Bytes, counter: u32, nonce: Bytes, buffer: array?<byte>) returns (output: array<byte>)
    requires |key| == 32 && |nonce| == 12
    requires buffer == null || buffer.Length == 64
    modifies if buffer == null then {} else {buffer}
    ensures output[..] == BlockOf(key, nonce)(counter)
    ensures if buffer == null then fresh(output) else output == buffer
  {
    ghost var first, second;
    output, first, second := ChaCha20Block(key, counter, nonce, buffer);
  }

  /** Encrypts into a new array; the one block buffer, used for every block, is zero afterwards. */
  method ChaCha20Xor(key: Bytes, nonce: Bytes, counter: u32, plaintext: array<byte>)
    returns (output: array<byte>, ghost scratch: array<byte>)
    requires |key| == 32 && |nonce| == 12
    ensures fresh(output) && output[..] == Crypt(BlockOf(key, nonce), counter, plaintext[..])
    ensures fresh(scratch) && scratch != output && ZeroBytes(scratch)
  {
    output := new byte[plaintext.Length];
    var block := new byte[64];
    var ctr := counter;
    var offset := 0;
    ghost var n := 0;
    ghost var blockAt := BlockOf(key, nonce);
    while offset < plaintext.Length
      invariant offset == 64 * n && n <= Blocks(plaintext.Length) && ctr == CounterAfter(counter, n)
      invariant Crypted(plaintext[..], output[..], Stream(blockAt, counter, n))
    {
      var keystream := EmitNamed(key, ctr, nonce, block);
      XorChunk(output, plaintext, keystream, offset);
      ChunkCrypted(plaintext[..], output[..], Stream(blockAt, counter, n), block[..]);
      ctr := Increment(ctr);
      offset := offset + 64;
      n := n + 1;
    }
    assert n == Blocks(plaintext.Length);
    ClearBytes(block);
    scratch := block;
  }

  /** As much of the output as the stream reaches is in place. */
  ghost predicate Crypted(data: Bytes, output: Bytes, pad: Bytes) {
    |output| == |data|
    && forall i :: 0 <= i < |pad| && i < |data| ==> output[i] == XorByte(data[i], pad[i])
  }

  lemma {:induction false} ChunkCrypted(data: Bytes, output: Bytes, pad: Bytes, block: Bytes)
    requires Crypted(data, output[..], pad) && |block| == 64
    requires forall i :: 0 <= i < 64 && |pad| + i < |data| ==> output[|pad| + i] == XorByte(data[|pad| + i], block[i])
    ensures Crypted(data, output, pad + block)
  {
    forall i | |pad| <= i < |pad| + 64 && i < |data| ensures output[i] == XorByte(data[i], (pad + block)[i]) {
      assert i == |pad| + (i - |pad|);
    }
  }

  method XorChunk(output: array<byte>, plaintext: array<byte>, keystream: array<byte>, offset: nat)
    requires output.Length == plaintext.Length && keystream.Length == 64 && offset < output.Length
    requires output != plaintext && output != keystream
    modifies output
    ensures forall i :: 0 <= i < 64 && offset + i < output.Length ==>
      output[offset + i] == XorByte(plaintext[offset + i], keystream[i])
    ensures forall i :: 0 <= i < offset ==> output[i] == old(output[i])
  {
    var chunk := if 64 < plaintext.Length - offset then 64 else plaintext.Length - offset;
    for i := 0 to chunk
      invariant forall j :: 0 <= j < i ==> output[offset + j] == XorByte(plaintext[offset + j], keystream[j])
      invariant forall j :: 0 <= j < offset ==> output[j] == old(output[j])
    {
      output[offset + i] := XorByte(plaintext[offset + i], keystream[i]);
    }
  }
}
