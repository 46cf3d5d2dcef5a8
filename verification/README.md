# Verified models of the encrypted task list's algorithms

A Dafny 4.11 project that models the self-contained algorithms of the client: the rotating key
cache, X25519 in big integers, ChaCha20-Poly1305 and HKDF on byte arrays, the StrongBox ciphertext
format and its size formula, the decryption cache, its worker and the worker's client, and the
smaller pieces around attachments, CBOR and the unlock daemon.  `dafny verify dfyconfig.toml` checks
everything.

## How the modules fit together

- `RotationSchedule` is the rotating cache in whole periods: what it holds after any history of refreshes,
  in closed form.  `RotatingStrongBox` is the same cache as the class the source has, with keys, ids,
  expiry index and seconds, proved against the schedule.  `StaticStrongBox` is the box inside it.
- `X25519` is the ladder as written; `X25519Multiples` says what it computes; `X25519Curve` says that its
  two formulas are the group law's.  `ModArith` proves Fermat's little theorem.
- `ChaCha20`, `ChaCha20Stream`, `Keystream`, `Poly1305`, `Poly1305Tag` and `ChaCha20Poly1305` go from the quarter
  round to the sealed message; `Buffers`, `LittleEndian` and `Bitwise` serve them.  `CipherVectors` computes
  examples of RFC 8439.  `Hkdf` expands keys.
- `CborHead` and `StrongBoxFormat` are printer and parser; `SizeInversion` is the web client's size loop.
- `CacheTrace` is the cache over runs of operations, `PlaintextCache` the class and `CacheAnswers` the rule by which
  it answers; `DecryptCacheKey`
  and `StrongBoxWorker` put them behind requests that interleave; `WorkerClient` and `HpkeResult` are the other end.
  `WorkerMessages` is what they send each other, and `PromiseProtocol` puts both ends and the channels together.
- `UnlockStore`, `Json`, `CborJson`, `BlobReference`, `TextSearch`, `DocxTables`, `DocxPairs`, `DocxProse` and
  `DocxMarkdown` are the smaller pieces, one per source function or class; `DocxLaws` says what the rewriting of
  prose does to whole texts.

Methods follow the source's loops and assignments and are proved against specification functions; lemmas
say what those functions mean.  `ModArith.Times` is the product, written as repeated addition and proved equal to it
by `TimesIs`; `ModArith.Look` and `ChaCha20Stream.BlockOf` hide a definition from proofs that do not need it.  Every
lemma switches automatic induction off, so that each proof is the one written.

## What the proofs found

- The rotating box documents `backtrack` previous periods for every key.  In `refresh_cache` the period is already
  stepped back when `b` is subtracted again, so a key of period `p` first cached in period `j` is usable up to
  period `2p + backtrack - j`: the documented window holds exactly for keys cached in their own period, and
  a key met with a cold cache gets half of it.
- At second 0 the initial all-zero key counts as unexpired and encrypts.
- The ladder reports an error exactly where the multiple is the point at infinity, where RFC 7748 returns zero: always
  for a coordinate that is zero in the field, and for every other point of an order that divides the scalar, such as
  the points of low order under a clamped one.  It reads the coordinate's top bit, which RFC 7748 masks.
- The size loop does not end for the limits 59, 292, 65573, 65574 and 4294967335 to 4294967338.  It returns 0
  for limits below 51, although even an empty plaintext does not fit.
- The client deletes a waiter before it decodes the reply, so an HPKE success of fewer than twelve bytes would leave
  the promise unsettled for ever (`WorkerClient.LostRun`).  The worker never sends one, because it packs every such
  result (`crates/strong-box-wasm/src/lib.rs:439` and `:502`): between these two no promise is lost
  (`PromiseProtocol.PromisesKept`).
- HKDF's counter byte is the standard's up to 255 blocks and repeats from the 257th on, where RFC 5869 refuses the
  length.  No caller comes near: the lengths asked for are 32 and 12 bytes.
- Pruning by the wall clock is invisible as long as the clock does not go back.  In general it is exactly as visible
  as `UnlockStore.SameLiveIff` says: a session pruned by a clock that ran ahead stays gone.
- The ciphertext parser reads one segment of each byte string.  Sealed bytes sent as an indefinite-length string are
  cut after the first segment, and a key id sent so is refused if the string is closed, and accepted if it is not.
- A tag pair around nothing but white space emits that white space twice.

## Assumptions

The clock, nonces and random keys are parameters.  The Rust AEAD, key derivation and key ids are functions with
stated hypotheses: what is sealed opens; of the two associated data at hand, sealing with one and opening with the
other fails; and keys derived from different root keys, or for different periods within the range of the clock, have
different ids.  `StaticStrongBox.SuitePossible` and `RotatingStrongBox.SoundPossible` show that these can hold
together of key ids and tags of 16 bytes.  Whether the CBOR library reads an indefinite-length string inside another, which
section 3.2.3 of RFC 8949 forbids, is a parameter.  What the WASM library packs has lengths of 32 bits.
HMAC is any function to 32 bytes.  SHA-256 is assumed free of collisions on the requests of a run.  2^255 - 19 is
assumed prime where a statement says so.

## Model

| member | source | states |
|---|---|---|
| `RotatingStrongBox.RotationTheorem` | crates/strong-box/src/rotating_strong_box.rs:84-147 | over every run of locked sections with a clock that does not go back, a ciphertext decrypts while twice its age in periods is within `backtrack`, and both tries refuse it once its age exceeds `backtrack`, whatever other threads do in between |
| `RotatingStrongBox.RunSections` | crates/strong-box/src/rotating_strong_box.rs:84-147 | the class under any run of locked sections: its cache is the one the schedule gives for the refreshes among them |
| `RotatingStrongBox.TryInRun` | crates/strong-box/src/rotating_strong_box.rs:83-100 | a try at any position of any run, on the class, gives what the theorem speaks of |
| `RotatingStrongBox.DecryptInRun` | crates/strong-box/src/rotating_strong_box.rs:122-147 | the theorem as a caller sees it: what the class answers in the last try of a decryption in any run, and that it refuses another context than that of the encryption |
| `RotatingStrongBox.AttemptExact` | crates/strong-box/src/rotating_strong_box.rs:83-100 | what a try answers to any ciphertext with the id of a key, whoever made it: the message that the AEAD opens with exactly that associated data, if the key is in its window, and else an error |
| `RotatingStrongBox.WrongContext` | crates/strong-box/src/rotating_strong_box.rs:83-147 | after any refreshes, what was sealed under one context is refused under another |
| `RotatingStrongBox.WrongContextInRun` | crates/strong-box/src/rotating_strong_box.rs:83-147 | and so by every try of any run |
| `RotatingStrongBox.KeyAtIs` | crates/strong-box/src/rotating_strong_box.rs:293-299 | the key of a period is derived from the root key and the first and last second of the period |
| `RotatingStrongBox.SoundPossible` | crates/strong-box/src/rotating_strong_box.rs:55-81 | the hypotheses hold together of a configuration with any lifespan and backtrack, 16-byte key ids and 16-byte tags |
| `RotationSchedule.DecryptWindow` | crates/strong-box/src/rotating_strong_box.rs:123-146 | the exact window: the second try finds the key if and only if its period is not past `2p + backtrack - j`, with `j` the period of the first refresh at or after the key's period `p` |
| `RotationSchedule.ColdWindow` | crates/strong-box/src/rotating_strong_box.rs:302-359 | with a cold cache the decryption's own refresh decides, so a key survives exactly half of what is documented |
| `RotationSchedule.OwnPeriodWindow` | crates/strong-box/src/rotating_strong_box.rs:302-359 | a key that a refresh cached in its own period lives through exactly `backtrack` further periods |
| `RotationSchedule.DocumentedWindowIff` | crates/strong-box/src/rotating_strong_box.rs:30-36 | the documented window of `backtrack` previous periods holds for a key if and only if its first refresh ran in its own period |
| `RotatingStrongBox.DocumentedWindowFails` | crates/strong-box/src/rotating_strong_box.rs:123-146 | a concrete run in which both tries of a decryption refuse what was encrypted two periods before, with three periods of `backtrack` |
| `RotationSchedule.LiveExact` | crates/strong-box/src/rotating_strong_box.rs:302-385 | after any history of refreshes, which periods' keys are cached and unexpired, in closed form |
| `RotationSchedule.CacheExact` | crates/strong-box/src/rotating_strong_box.rs:302-359 | after any history of refreshes, what the cache holds and each entry's expiry; the expiry is fixed by the first refresh that cached it |
| `RotationSchedule.RefreshFills` | crates/strong-box/src/rotating_strong_box.rs:325-331 | stopping at the first cached period is sound: a refresh adds every period since the last refresh that is in reach, and nothing else |
| `RotationSchedule.RefreshExact` | crates/strong-box/src/rotating_strong_box.rs:302-359 | one refresh keeps the closed form, whatever came before |
| `RotationSchedule.FillUpTo` | crates/strong-box/src/rotating_strong_box.rs:316-356 | the loop over periods adds exactly a range ending at the first cached or unreachable one |
| `RotationSchedule.FoundExact` | crates/strong-box/src/rotating_strong_box.rs:84-100 | in every run, whether a try finds a key depends only on the first refresh at or after the key's period |
| `RotationSchedule.PeriodNoIs` | crates/strong-box/src/rotating_strong_box.rs:388-391 | the number of a period is the second divided by the lifespan |
| `RotatingStrongBox.PeriodOf` | crates/strong-box/src/rotating_strong_box.rs:388-391 | `at - at % lifespan` is the start of the period that holds the second |
| `RotatingStrongBox.AfterEnd` | crates/strong-box/src/rotating_strong_box.rs:454-456 | expiry by second agrees with expiry by period |
| `RotatingStrongBox.PreviousPeriod` | crates/strong-box/src/rotating_strong_box.rs:418-436 | stepping back gives the period before, and nothing exactly at the epoch, without overflow |
| `RotatingStrongBox.ExpiryInRange` | crates/strong-box/src/rotating_strong_box.rs:332-333 | the expiry of a key, with `b` subtracted a second time, is the end of a period and does not overflow within the stated clock range |
| `RotatingStrongBox.Config.WithKeysHolds` | crates/strong-box/src/rotating_strong_box.rs:336-349 | all root keys of a period enter the cache together with one expiry, and the keys of other periods are untouched |
| `RotatingStrongBox.Config.CachedTogether` | crates/strong-box/src/rotating_strong_box.rs:318-331 | the keys of one period are all cached or none is, so probing for the first root's key suffices |
| `RotatingStrongBox.Config.PurgeHolds` | crates/strong-box/src/rotating_strong_box.rs:361-381 | all root keys of a period leave the cache together, when the period's expiry has passed |
| `RotatingStrongBox.IndexInsert` | crates/strong-box/src/rotating_strong_box.rs:347-348 | map and expiry index describe the same pairs after an insertion |
| `RotatingStrongBox.IndexRemove` | crates/strong-box/src/rotating_strong_box.rs:368-371 | map and expiry index describe the same pairs after a removal, and the map gets smaller |
| `RotatingStrongBox.KeyCache.constructor` | crates/strong-box/src/rotating_strong_box.rs:265-278 | a new cache satisfies the invariant: empty, with the zero key as encryptor |
| `RotatingStrongBox.KeyCache.PeriodAt` | crates/strong-box/src/rotating_strong_box.rs:387-397 | the first and last second of the current period |
| `RotatingStrongBox.KeyCache.CurrentEncryptor` | crates/strong-box/src/rotating_strong_box.rs:281-292 | the encryptor of the current period, except at second 0 where the initial zero key has not expired |
| `RotatingStrongBox.KeyCache.OldestCachedDecryptor` | crates/strong-box/src/rotating_strong_box.rs:382-385 | the entry that expires first and among those the one with the least key id, or none exactly if the index is empty |
| `RotatingStrongBox.KeyCache.PurgeEntriesBefore` | crates/strong-box/src/rotating_strong_box.rs:361-381 | terminates having removed exactly the entries that expire before the bound, in map and index alike |
| `RotatingStrongBox.KeyCache.RefreshCache` | crates/strong-box/src/rotating_strong_box.rs:302-359 | keeps the invariant that the cache is the closed form of the refresh history, extended by this refresh |
| `RotatingStrongBox.KeyCache.CachePeriodsBackFrom` | crates/strong-box/src/rotating_strong_box.rs:316-356 | the loop from the current period back computes the schedule's fill |
| `RotatingStrongBox.KeyCache.CachePeriod` | crates/strong-box/src/rotating_strong_box.rs:316-349 | one turn: stops exactly if the period is cached, else adds it with its expiry |
| `RotatingStrongBox.KeyCache.AddKeys` | crates/strong-box/src/rotating_strong_box.rs:336-349 | adds the keys of all roots to map and index |
| `RotatingStrongBox.KeyCache.TryDecryptWith` | crates/strong-box/src/rotating_strong_box.rs:83-100 | succeeds exactly as the closed form of the window says, for every root and period; unknown key ids are refused |
| `RotatingStrongBox.RotatingBox.constructor` | crates/strong-box/src/rotating_strong_box.rs:57-81 | a new box owns a fresh valid cache |
| `RotatingStrongBox.RotatingBox.Encrypt` | crates/strong-box/src/rotating_strong_box.rs:110-120 | the ciphertext under the current period's key of the encryption root; the cache of decryptors is untouched |
| `RotatingStrongBox.RotatingBox.Decrypt` | crates/strong-box/src/rotating_strong_box.rs:122-147 | a try, and on failure a refresh and a second try, each at its own clock reading, as the window says |
| `RotatingStrongBox.SealedOpens` | crates/strong-box/src/rotating_strong_box.rs:438-452 | a ciphertext opens under the derived key it was made with and the same context |
| `StaticStrongBox.New` | crates/strong-box/src/static_strong_box.rs:110-131 | the loop builds the key map; of keys with one id the last stays |
| `StaticStrongBox.KeyMapExact` | crates/strong-box/src/static_strong_box.rs:110-121 | the map has exactly the ids of the given keys |
| `StaticStrongBox.DecryptIff` | crates/strong-box/src/static_strong_box.rs:134-160 | a box decrypts another box's ciphertext exactly if it was given the encryption key and the same context (no other of its keys shares the id; the AEAD tells apart the two associated data at hand) |
| `StaticStrongBox.AadInjective` | crates/strong-box/src/static_strong_box.rs:184-187 | the associated data determines context, key id and nonce |
| `StaticStrongBox.SuitePossible` | crates/strong-box/src/static_strong_box.rs:134-160 | the hypotheses on the primitives hold together of sealing with a 16-byte tag |
| `StrongBoxFormat.ParsedIff` | crates/strong-box/src/static_strong_box.rs:273-357 | the parser accepts exactly the layouts of a ciphertext, with heads of any size class, each string possibly opened as one of indefinite length, and anything after them |
| `StrongBoxFormat.PrintParse` | crates/strong-box/src/static_strong_box.rs:234-356 | parsing what was serialised gives the same key id, nonce and sealed bytes for every length, whatever follows |
| `StrongBoxFormat.PrintedShortest` | crates/strong-box/src/static_strong_box.rs:234-271 | of all inputs that parse to a ciphertext the serialised one is a shortest |
| `StrongBoxFormat.PrintedLength` | packages/crypto-web/src/crypto/attachment.ts:170-182 | the serialised size is the plaintext size plus the overhead that the web client computes |
| `StrongBoxFormat.PrintedBytes` | crates/strong-box/src/static_strong_box.rs:234-271 | what is serialised, byte for byte, for every length |
| `StrongBoxFormat.ToBytes` | crates/strong-box/src/static_strong_box.rs:234-271 | magic, array head and three byte strings appended to a buffer, which are the bytes of `PrintedBytes` |
| `StrongBoxFormat.Encoder.PushBytes` | crates/strong-box/src/key_id.rs:18-22 | appends a byte string with the shortest head |
| `StrongBoxFormat.SegmentsCutIff` | crates/strong-box/src/static_strong_box.rs:328-350 | sealed bytes in segments of an indefinite-length string are silently cut after the first, so they are read right exactly if the other segments are empty |
| `StrongBoxFormat.SegmentedKeyIdFails` | crates/strong-box/src/key_id.rs:24-53 | a well-formed key id of indefinite length is refused, because the break after it is taken for the nonce |
| `StrongBoxFormat.WrongWidth` | crates/strong-box/src/static_strong_box.rs:316-326 | a string of another width is refused as of incorrect length, and an empty one, even as key id, as a short nonce |
| `StrongBoxFormat.SegmentRead` | crates/strong-box/src/static_strong_box.rs:299-311 | a segment is found behind every sequence of heads that open or close indefinite-length strings |
| `StrongBoxFormat.SegmentWas` | crates/strong-box/src/static_strong_box.rs:299-311 | and behind nothing else |
| `StrongBoxFormat.Decoder.PullSegment` | crates/strong-box/src/static_strong_box.rs:299-311 | the loop to the first segment of a string |
| `StrongBoxFormat.Decoder.PullChunk` | crates/strong-box/src/static_strong_box.rs:316-326 | reads as many bytes of a string as the buffer holds, none at its end, or fails if they are missing |
| `StrongBoxFormat.Decoder.PullFixed` | crates/strong-box/src/key_id.rs:24-53 | reads a string of fixed width from its first part, with the errors in the source's order |
| `StrongBoxFormat.Decoder.PullBody` | crates/strong-box/src/static_strong_box.rs:328-350 | the loop over parts as long as the buffer rebuilds the whole string |
| `StrongBoxFormat.Parse` | crates/strong-box/src/static_strong_box.rs:273-357 | checks length, magic and array, then reads the three strings |
| `StrongBoxFormat.FixedIff` | crates/strong-box/src/static_strong_box.rs:301-326 | a fixed-width string is read exactly if it is there, in any form, with what follows its first segment left over |
| `StrongBoxFormat.BodyIff` | crates/strong-box/src/static_strong_box.rs:328-350 | the sealed bytes are read exactly if they are there as a string or as the first segment of one |
| `CborHead.ReadEncoded` | crates/strong-box/src/static_strong_box.rs:289-295 | every encoding of a head (section 3 of RFC 8949) reads back, whatever follows |
| `CborHead.IndefiniteIff` | crates/strong-box/src/static_strong_box.rs:289-306 | a head without an argument is the one byte that opens an indefinite length, or the break |
| `CborHead.ReadIsEncoded` | crates/strong-box/src/static_strong_box.rs:289-295 | what reads as a head is one of the encodings of its argument |
| `CborHead.EncodedDigits` | crates/strong-box/src/static_strong_box.rs:242-248 | the argument of a head is written with its most significant digit first (section 3 of RFC 8949) |
| `CborHead.ReadDigits` | crates/strong-box/src/static_strong_box.rs:289-295 | and read with its most significant digit first |
| `CborHead.HeadVectors` | crates/strong-box/src/static_strong_box.rs:242-248 | four of the encodings of appendix A of RFC 8949 |
| `CborHead.ShortestHolds` | crates/strong-box/src/static_strong_box.rs:242-248 | the encoder's size class holds the argument and no shorter one does |
| `SizeInversion.StopsIff` | packages/crypto-web/src/crypto/attachment.ts:158-168 | the fixed-point loop ends if and only if the limit is not one of eight skipped numbers |
| `SizeInversion.Alternates` | packages/crypto-web/src/crypto/attachment.ts:158-168 | for a skipped limit the estimate swaps between two values for ever |
| `SizeInversion.IsSizeIff` | packages/crypto-web/src/crypto/attachment.ts:170-182 | the sizes a StrongBox can have are exactly the numbers from 51 on that are not skipped |
| `SizeInversion.MaxPlaintextBytes` | packages/crypto-web/src/crypto/attachment.ts:158-168 | otherwise it returns the greatest plaintext size that fits, filling the limit exactly, or 0 if nothing fits |
| `SizeInversion.Settles` | packages/crypto-web/src/crypto/attachment.ts:158-168 | the estimate is right after at most two turns |
| `SizeInversion.TenMebibytes` | packages/crypto-web/src/crypto/attachment.ts:19-21 | for 10 MiB the greatest plaintext has 10485705 bytes |
| `X25519Multiples.LadderTheorem` | packages/crypto-web/src/crypto/x25519-fallback.ts:28-68 | for every scalar and every nonzero coordinate the output is the quotient `x/z` of the multiple by the low 255 bits, in canonical form, and an error exactly at infinity (2^255 - 19 assumed prime) |
| `X25519Multiples.LadderMultiple` | packages/crypto-web/src/crypto/x25519-fallback.ts:37-58 | after each bit the two points are the multiples by the bits read so far and by its successor |
| `X25519Multiples.DoubleScaled` | packages/crypto-web/src/crypto/x25519-fallback.ts:45-57 | doubling depends only on the projective class of the point |
| `X25519Multiples.DiffAddScaled` | packages/crypto-web/src/crypto/x25519-fallback.ts:45-57 | differential addition depends only on the projective classes |
| `X25519Multiples.ZeroCoordinateFails` | packages/crypto-web/src/crypto/x25519-fallback.ts:109-112 | a coordinate that is zero in the field always gives the error, where RFC 7748 gives zero |
| `X25519Multiples.TopBit` | packages/crypto-web/src/crypto/x25519-fallback.ts:30 | leaving the top bit unmasked agrees with RFC 7748 exactly if that bit is clear |
| `X25519Curve.DiffAddIsChord` | packages/crypto-web/src/crypto/x25519-fallback.ts:50-55 | differential addition is the chord construction on the curve |
| `X25519Curve.DoubleIsTangent` | packages/crypto-web/src/crypto/x25519-fallback.ts:45-57 | doubling is the tangent construction on the curve |
| `X25519Curve.SumTimesDifference` | packages/crypto-web/src/crypto/x25519-fallback.ts:50-55 | the relation between the x-coordinates of sum and difference that the ladder rests on |
| `X25519.DiffAddCong` | packages/crypto-web/src/crypto/x25519-fallback.ts:50-55 | the computed sum is the textbook formula over the field |
| `X25519.DoubleCong` | packages/crypto-web/src/crypto/x25519-fallback.ts:45-57 | the computed double is the textbook formula with A = 486662 |
| `X25519.DiffAddSymmetric` | packages/crypto-web/src/crypto/x25519-fallback.ts:39-43 | the order of the two points does not matter, so the deferred swap is harmless |
| `X25519.MontgomeryLadder` | packages/crypto-web/src/crypto/x25519-fallback.ts:28-68 | the loop with the deferred conditional swap ends in the point of the swap-free recursion |
| `X25519.LadderStep` | packages/crypto-web/src/crypto/x25519-fallback.ts:45-57 | one turn after the swap doubles the first point and adds the second |
| `X25519.ToAffine` | packages/crypto-web/src/crypto/x25519-fallback.ts:65-67 | the quotient of the final coordinates, or the inversion error |
| `X25519.StepsReduced` | packages/crypto-web/src/crypto/x25519-fallback.ts:45-57 | all points are given by canonical representatives |
| `X25519.ModPow` | packages/crypto-web/src/crypto/x25519-fallback.ts:116-128 | square-and-multiply is the power modulo P for all bases and exponents; an exponent that is not positive gives 1 |
| `X25519.ModInverse` | packages/crypto-web/src/crypto/x25519-fallback.ts:109-114 | an error exactly for zero, otherwise an inverse |
| `X25519.InverseIsInverse` | packages/crypto-web/src/crypto/x25519-fallback.ts:113 | the power P - 2 of a nonzero element is its inverse (Fermat) |
| `ModArith.FermatNat` | packages/crypto-web/src/crypto/x25519-fallback.ts:113 | Fermat's little theorem, proved from the binomial theorem and Euclid's lemma |
| `ModArith.FermatInverse` | packages/crypto-web/src/crypto/x25519-fallback.ts:113 | Fermat's little theorem as the inverse it provides |
| `ModArith.Euclid` | packages/crypto-web/src/crypto/x25519-fallback.ts:113 | a prime that divides a product divides a factor |
| `ModArith.Binomial` | packages/crypto-web/src/crypto/x25519-fallback.ts:113 | the binomial theorem for `1 + a` |
| `X25519.NormalizeIs` | packages/crypto-web/src/crypto/x25519-fallback.ts:88-91 | truncated remainder and correction give the canonical representative, also of negative numbers |
| `X25519.NormalizeEqual` | packages/crypto-web/src/crypto/x25519-fallback.ts:88-91 | normalised numbers are equal exactly if the numbers are congruent |
| `X25519.BytesToBigInt` | packages/crypto-web/src/crypto/x25519-fallback.ts:70-76 | reads a little-endian number |
| `X25519.BigintToBytes` | packages/crypto-web/src/crypto/x25519-fallback.ts:78-86 | writes the canonical representative as 32 bytes |
| `X25519.WriteRead` | packages/crypto-web/src/crypto/x25519-fallback.ts:70-86 | writing and reading back gives the value modulo P |
| `X25519.ReadWrite` | packages/crypto-web/src/crypto/x25519-fallback.ts:70-86 | reading and writing back gives the same bytes exactly for reduced encodings |
| `X25519.X25519ScalarMult` | packages/crypto-web/src/crypto/x25519-fallback.ts:16-26 | the length errors in order, then the ladder |
| `X25519.X25519ScalarMultBase` | packages/crypto-web/src/crypto/x25519-fallback.ts:11-14 | the length error, or the ladder on the base point |
| `X25519.BasePointIs` | packages/crypto-web/src/crypto/x25519-fallback.ts:1-5 | the base point is the coordinate 9 |
| `ChaCha20Poly1305.OpenIffSealed` | packages/crypto-web/src/crypto/hpke.ts:569-646 | opening gives a plaintext exactly if sealing that plaintext gives the ciphertext, for every key, nonce and associated data |
| `ChaCha20Poly1305.OpenOtherIff` | packages/crypto-web/src/crypto/hpke.ts:569-646 | what was sealed with one associated data opens with another exactly if the Poly1305 tags of the two framings agree; counter 1 encrypts and counter 0 gives the one-time key |
| `ChaCha20Poly1305.SealedInjective` | packages/crypto-web/src/crypto/hpke.ts:569-603 | different plaintexts seal differently, each to 16 bytes more |
| `ChaCha20Poly1305.Seal` | packages/crypto-web/src/crypto/hpke.ts:569-603 | the errors in order, or the sealed bytes in a fresh array; first block, one-time key, ciphertext and tag are four other arrays that end up zero |
| `ChaCha20Poly1305.Open` | packages/crypto-web/src/crypto/hpke.ts:605-646 | the errors in order, or the plaintext in a fresh array, only under a matching tag; payload, tag, first block, one-time key and expected tag are five other arrays that end up zero, opened or not |
| `ChaCha20Poly1305.CheckTag` | packages/crypto-web/src/crypto/hpke.ts:630-636 | compares the tag under the one-time key of block 0 |
| `ChaCha20Poly1305.OneTimeKey` | packages/crypto-web/src/crypto/hpke.ts:587-588 | the first 32 bytes of the block with counter 0 |
| `Keystream.AvoidsZeroIff` | packages/crypto-web/src/crypto/hpke.ts:655-662 | data blocks, counted from 1, never use counter 0 exactly up to 2^32 - 1 blocks |
| `Keystream.NeverRepeatsIff` | packages/crypto-web/src/crypto/hpke.ts:655-662 | no two data blocks share a counter exactly up to 2^32 blocks |
| `Keystream.CounterAfterIs` | packages/crypto-web/src/crypto/hpke.ts:655-661 | the counter is the start plus the number of blocks modulo 2^32 |
| `Keystream.CryptAt` | packages/crypto-web/src/crypto/hpke.ts:659-666 | byte `j` of block `k` is combined with byte `j` of the cipher block whose counter is `k` after the first (section 2.4 of RFC 8439) |
| `Keystream.CryptTwice` | packages/crypto-web/src/crypto/hpke.ts:648-677 | applying the stream twice gives the data back |
| `Keystream.StreamAt` | packages/crypto-web/src/crypto/hpke.ts:659-660 | the stream is the blocks one after another |
| `ChaCha20Stream.ChaCha20Xor` | packages/crypto-web/src/crypto/hpke.ts:648-677 | the loop with one reused block buffer computes the stream cipher into a fresh array; the buffer ends up zero |
| `ChaCha20Stream.ChaCha20Block` | packages/crypto-web/src/crypto/hpke.ts:679-728 | the block function into the given or a new buffer; both scratch arrays end up zero |
| `ChaCha20Stream.LoadState` | packages/crypto-web/src/crypto/hpke.ts:685-701 | constants, key, counter and nonce as sixteen words |
| `ChaCha20Stream.RunRounds` | packages/crypto-web/src/crypto/hpke.ts:705-714 | ten times a column and a diagonal round |
| `ChaCha20Stream.AddState` | packages/crypto-web/src/crypto/hpke.ts:716-718 | the initial state is added word by word |
| `ChaCha20Stream.EmitWords` | packages/crypto-web/src/crypto/hpke.ts:720-723 | the words as little-endian bytes |
| `ChaCha20.QuarterBijection` | packages/crypto-web/src/crypto/hpke.ts:730-746 | the quarter round is a bijection on four words |
| `ChaCha20.QuarterVector` | packages/crypto-web/src/crypto/hpke.ts:730-746 | the test vector of section 2.1.1 of RFC 8439 |
| `ChaCha20.QuarterRound` | packages/crypto-web/src/crypto/hpke.ts:730-746 | in place on four distinct words, all others unchanged |
| `ChaCha20.ColumnRound` | packages/crypto-web/src/crypto/hpke.ts:706-709 | the four quarter rounds on columns |
| `ChaCha20.DiagonalRound` | packages/crypto-web/src/crypto/hpke.ts:710-713 | the four quarter rounds on diagonals |
| `ChaCha20.ConstantsSpell` | packages/crypto-web/src/crypto/hpke.ts:687-690 | the constants are the bytes of the standard's text |
| `CipherVectors.BlockVector` | packages/crypto-web/src/crypto/hpke.ts:679-728 | the example of section 2.3.2 of RFC 8439: the twenty rounds and the sum give the listed words |
| `CipherVectors.StateLayout` | packages/crypto-web/src/crypto/hpke.ts:685-701 | where constants, key, counter and nonce stand in the state |
| `CipherVectors.WrittenAt` | packages/crypto-web/src/crypto/hpke.ts:720-723 | each word is written with its least significant byte first |
| `CipherVectors.TagVector` | packages/crypto-web/src/crypto/hpke.ts:779-828 | the example of section 2.5.2 of RFC 8439: clamping, blocks, prime and sum give the listed tag |
| `Bitwise.XorBit` | packages/crypto-web/src/crypto/hpke.ts:665-667 | the exclusive or used on bytes, bit by bit |
| `Buffers.ConstantTimeEquals` | packages/crypto-web/src/crypto/hpke.ts:768-777 | true exactly for equal byte strings |
| `Poly1305.Poly1305Accumulate` | packages/crypto-web/src/crypto/hpke.ts:815-828 | the loop equals the closed polynomial of the blocks modulo the prime, for data of any length (section 2.5 of RFC 8439) |
| `Poly1305.HornerStep` | packages/crypto-web/src/crypto/hpke.ts:821-826 | one block raises every power and adds a term |
| `Poly1305.ClampIs` | packages/crypto-web/src/crypto/hpke.ts:810-813 | masking the number clamps exactly the bytes the standard names |
| `Poly1305.LeBytesToBigInt` | packages/crypto-web/src/crypto/hpke.ts:838-844 | reads a little-endian number, in which bytes past the end are zero |
| `Poly1305.BigIntToBytes` | packages/crypto-web/src/crypto/hpke.ts:846-852 | writes a number in little-endian order |
| `Poly1305.ConcatBytes` | packages/crypto-web/src/crypto/hpke.ts:482-491 | the parts one after another in a fresh array |
| `Poly1305Tag.MacDataInjective` | packages/crypto-web/src/crypto/hpke.ts:793-801 | different associated data or ciphertexts are authenticated as different data |
| `Poly1305Tag.MacDataParts` | packages/crypto-web/src/crypto/hpke.ts:786-801 | what is authenticated: associated data, zeros to a whole block, ciphertext, zeros, and both lengths as eight little-endian bytes |
| `Poly1305Tag.MacDataAligned` | packages/crypto-web/src/crypto/hpke.ts:793-801 | the authenticated data is a multiple of 16 bytes |
| `Poly1305Tag.Poly1305Padding` | packages/crypto-web/src/crypto/hpke.ts:830-836 | fewer than 16 bytes, up to the next multiple of 16 |
| `Poly1305Tag.Poly1305Authenticate` | packages/crypto-web/src/crypto/hpke.ts:779-808 | the key length error, or the tag of the framed data; length block and framed data end up zero |
| `Hkdf.HkdfExpand` | packages/crypto-web/src/crypto/hpke.ts:426-466 | the chain of blocks cut to length, in a fresh array; the whole result, every block and every hash input end up zero |
| `Hkdf.ExpandedBlocks` | packages/crypto-web/src/crypto/hpke.ts:440-458 | read off the output alone: each block of 32 bytes is the hash of the block before, the info and the block's number (section 2.3 of RFC 5869) |
| `Hkdf.ExpandedPrefix` | packages/crypto-web/src/crypto/hpke.ts:426-466 | a shorter output is the beginning of a longer one |
| `Hkdf.CountersDistinctIff` | packages/crypto-web/src/crypto/hpke.ts:446-449 | the counter byte tells the blocks apart exactly up to 256 blocks |
| `Hkdf.CountersStandardIff` | packages/crypto-web/src/crypto/hpke.ts:446-449 | the counter byte is the block's number in one octet, as section 2.3 of RFC 5869 has it, exactly up to 255 blocks |
| `CacheTrace.Inclusion` | packages/crypto-web/src/crypto/strong-box-cache.ts:11-52 | on the same run a smaller cache is an order-preserving part of a larger one, with equal values and expiries |
| `CacheTrace.LargerNeverMisses` | packages/crypto-web/src/crypto/strong-box-cache.ts:11-26 | the larger cache answers wherever the smaller does, with the value last written |
| `CacheTrace.RunBounded` | packages/crypto-web/src/crypto/strong-box-cache.ts:38-52 | never more entries than the capacity, and one per key |
| `CacheTrace.RunOrdered` | packages/crypto-web/src/crypto/strong-box-cache.ts:23-52 | with a clock that does not go back the entry evicted is one of the first to expire |
| `CacheTrace.RunCoherent` | packages/crypto-web/src/crypto/strong-box-cache.ts:11-41 | an entry always holds the value last written to its key |
| `CacheAnswers.HitIff` | packages/crypto-web/src/crypto/strong-box-cache.ts:11-52 | over every run whose clock does not go back, a get is answered exactly if the last operation on its key was a set or an answered get, less than the time to live ago, and since then nothing was cleared and fewer other keys than the capacity were set or answered; the answer is the value last written |
| `CacheAnswers.GetInRun` | packages/crypto-web/src/crypto/strong-box-cache.ts:11-52 | the class answers by that rule at the end of any run |
| `CacheAnswers.JustSet` | packages/crypto-web/src/crypto/strong-box-cache.ts:28-41 | what was just set is answered for the time to live, whatever the cache held and whatever the clock does |
| `CacheAnswers.JustAnswered` | packages/crypto-web/src/crypto/strong-box-cache.ts:23-25 | what was just answered is answered for another time to live |
| `PlaintextCache.PlaintextCache.constructor` | packages/crypto-web/src/crypto/strong-box-cache.ts:6-9 | an empty cache with its two limits |
| `PlaintextCache.PlaintextCache.Get` | packages/crypto-web/src/crypto/strong-box-cache.ts:11-26 | expired entries go, live ones move to the end with a new expiry, and the caller gets a copy |
| `PlaintextCache.PlaintextCache.Set` | packages/crypto-web/src/crypto/strong-box-cache.ts:28-41 | stores a copy as the newest entry and evicts the oldest if there are too many |
| `PlaintextCache.PlaintextCache.Evict` | packages/crypto-web/src/crypto/strong-box-cache.ts:47-52 | drops the oldest entry |
| `PlaintextCache.PlaintextCache.ClearEntries` | packages/crypto-web/src/crypto/strong-box-cache.ts:43-45 | empties the cache |
| `DecryptCacheKey.FrameInjective` | packages/crypto-web/src/workers/strong-box-cache-key.ts:28-47 | the framed bytes determine the list of fields |
| `DecryptCacheKey.FrameVector` | packages/crypto-web/src/workers/strong-box-cache-key.ts:38-45 | the framing of two small fields, byte for byte |
| `DecryptCacheKey.FrameCacheKeyFields` | packages/crypto-web/src/workers/strong-box-cache-key.ts:28-47 | each field after its length, or the error exactly if a length does not fit |
| `StrongBoxWorker.EveryReplyUncached` | packages/crypto-web/src/workers/strong-box.worker.ts:150-262 | in every interleaving of requests of all four operations, and whatever the clock reads, each reply is the uncached one (digest collision-free on the decryptions) |
| `StrongBoxWorker.AnsweredOnce` | packages/crypto-web/src/workers/strong-box.worker.ts:116-262 | every request that arrived is waiting or was answered once |
| `StrongBoxWorker.AnswerRemembered` | packages/crypto-web/src/workers/strong-box.worker.ts:162-178 | a plaintext that was answered is found for the time to live by the next request with that key, and an error is not remembered |
| `StrongBoxWorker.AnswerSound` | packages/crypto-web/src/workers/strong-box.worker.ts:162-191 | a sound cache gives the uncached answer and stays sound; failures are not cached |
| `StrongBoxWorker.Services.SameRequest` | packages/crypto-web/src/workers/strong-box-cache-key.ts:4-26 | equal cache keys mean equal key, context and payload |
| `StrongBoxWorker.Serve` | packages/crypto-web/src/workers/strong-box.worker.ts:116-262 | the worker itself on any events, each reply's buffer being given away at once, posts the replies and keeps the cache of the interleaving model |
| `StrongBoxWorker.Worker.constructor` | packages/crypto-web/src/workers/strong-box.worker.ts:97 | a worker starts with an empty cache of 64 entries and two minutes |
| `StrongBoxWorker.Worker.ComputeCacheKey` | packages/crypto-web/src/workers/strong-box-cache-key.ts:5-26 | the cache key, or the error if a field is too long |
| `StrongBoxWorker.Worker.HandleRequest` | packages/crypto-web/src/workers/strong-box.worker.ts:150-262 | the reply to any of the four operations; only decryptions touch the cache |
| `StrongBoxWorker.Worker.PostReply` | packages/crypto-web/src/workers/strong-box.worker.ts:163-191 | the message has the bytes of the reply, and giving the buffer away leaves the cache as it is |
| `StrongBoxWorker.Worker.FinishDecrypt` | packages/crypto-web/src/workers/strong-box.worker.ts:163-191 | reply and cache as the interleaving model says; the reply's buffer is fresh and not one of the cache's |
| `PromiseProtocol.PromisesKept` | packages/crypto-web/src/crypto/strong-box-worker-client.ts:66-203 | over every interleaving of calls, channels, worker and worker errors: the request issued n-th is posted under id n, its promise is told at most one outcome, which is the result or failure of its own request without any cache, or a worker error; it is in the table exactly until then, and until then its request or its reply is under way |
| `PromiseProtocol.AllTold` | packages/crypto-web/src/crypto/strong-box-worker-client.ts:66-203 | once nothing is under way, every promise has been told exactly one outcome and the table is empty |
| `PromiseProtocol.RepliesInOrder` | packages/crypto-web/src/crypto/strong-box-worker-client.ts:68-77 | what the worker posted is what the client received and what is on the way, in order |
| `PromiseProtocol.ClientRuns` | packages/crypto-web/src/crypto/strong-box-worker-client.ts:66-203 | the client of the protocol is the client on the events it sees |
| `PromiseProtocol.WorkerRuns` | packages/crypto-web/src/workers/strong-box.worker.ts:116-262 | the worker of the protocol is the worker on the events it sees |
| `PromiseProtocol.SettledRight` | packages/crypto-web/src/crypto/strong-box-worker-client.ts:79-83 | a reply of this worker to a request settles the promise with the result of that request |
| `WorkerClient.ClientAgrees` | packages/crypto-web/src/crypto/strong-box-worker-client.ts:66-203 | for any events the table holds exactly the waiting promises, and exactly the settled ones were resolved or rejected, once each |
| `WorkerClient.DecidedIff` | packages/crypto-web/src/crypto/strong-box-worker-client.ts:68-94 | a promise is settled or lost only by a reply with its own id or a worker error, and the first of them decides |
| `WorkerClient.PendingIff` | packages/crypto-web/src/crypto/strong-box-worker-client.ts:66-94 | the pending ids are those issued less those settled and those lost; at most one settlement each |
| `WorkerClient.LosesIff` | packages/crypto-web/src/crypto/strong-box-worker-client.ts:79-83 | a reply is lost exactly if it is a success of under twelve bytes for an HPKE request |
| `WorkerClient.LostRun` | packages/crypto-web/src/crypto/strong-box-worker-client.ts:79-83 | a run in which such a reply comes: the promise leaves the table unsettled, and nothing later settles it |
| `WorkerClient.NothingLost` | packages/crypto-web/src/crypto/strong-box-worker-client.ts:66-94 | if every HPKE success is a packed result, no promise is lost and the pending ids are exactly those issued less those settled |
| `WorkerClient.BrokenRejects` | packages/crypto-web/src/crypto/strong-box-worker-client.ts:89-94 | a worker error empties the table and rejects every waiting promise |
| `WorkerClient.RejectedOnce` | packages/crypto-web/src/crypto/strong-box-worker-client.ts:89-94 | each waiter is rejected once |
| `WorkerClient.StrongBoxWorkerClient.constructor` | packages/crypto-web/src/crypto/strong-box-worker-client.ts:66-67 | an empty table |
| `WorkerClient.StrongBoxWorkerClient.Invoke` | packages/crypto-web/src/crypto/strong-box-worker-client.ts:123-203 | the request is posted under a new id, and the promise enters the table under that id with the way to decode its result |
| `WorkerClient.StrongBoxWorkerClient.OnMessage` | packages/crypto-web/src/crypto/strong-box-worker-client.ts:68-87 | removes the waiter, then decodes and settles; throws exactly if decoding does |
| `WorkerClient.StrongBoxWorkerClient.OnError` | packages/crypto-web/src/crypto/strong-box-worker-client.ts:89-94 | rejects all waiters in order and clears the table |
| `HpkeResult.PackDecode` | packages/crypto-web/src/crypto/strong-box-worker-client.ts:217-233 | what the WASM library packed decodes to the same parts |
| `HpkeResult.PackLayout` | crates/strong-box-wasm/src/lib.rs:705-714 | where the parts and their little-endian lengths stand |
| `HpkeResult.DecodeExact` | packages/crypto-web/src/crypto/strong-box-worker-client.ts:217-233 | each part is what its length asks for, as far as the bytes reach |
| `HpkeResult.DecodePackIff` | crates/strong-box-wasm/src/lib.rs:705-714 | packing what was decoded gives the bytes back exactly if the three lengths account for all of them |
| `UnlockStore.SameAnswers` | crates/client-runtime/src/unlock_daemon.rs:74-117 | with a clock that does not go back, every request is answered as by a store that never prunes |
| `UnlockStore.SameLive` | crates/client-runtime/src/unlock_daemon.rs:111-117 | with a clock that does not go back pruning never changes which sessions are live |
| `UnlockStore.UnlockedIff` | crates/client-runtime/src/unlock_daemon.rs:91-109 | asked for no session in particular it reports unlocked exactly if some session written is still live |
| `UnlockStore.SameLiveIff` | crates/client-runtime/src/unlock_daemon.rs:111-117 | whatever the clock does, pruning is invisible now exactly if, for every session written and not expired now, no pruning request since its last write read a clock at or past its expiry |
| `UnlockStore.PrunedExact` | crates/client-runtime/src/unlock_daemon.rs:74-117 | whatever the clock does, the store holds exactly the sessions written for which no later pruning request read a clock at or past the expiry, as last written |
| `UnlockStore.GetExact` | crates/client-runtime/src/unlock_daemon.rs:74-84 | after any run a session's key is handed out exactly if its last write, not deleted since, has not expired and did not look expired to any request that pruned since; and it is the key of that write |
| `UnlockStore.WrittenIff` | crates/client-runtime/src/unlock_daemon.rs:75-77 | what the reference store has of a session is what its last write says, unless it was deleted since |
| `UnlockStore.ClockBackDiffers` | crates/client-runtime/src/unlock_daemon.rs:112-116 | a run of two requests whose clock goes back past the expiry, after which the session is gone though it is live |
| `UnlockStore.UnlockStore.PruneExpired` | crates/client-runtime/src/unlock_daemon.rs:112-116 | looking at each session once in any order keeps exactly those that expire later than now, unchanged |
| `UnlockStore.UnlockStore.StatusOf` | crates/client-runtime/src/unlock_daemon.rs:91-110 | the status of one session, or of any live one |
| `UnlockStore.UnlockStore.HandleRequest` | crates/client-runtime/src/unlock_daemon.rs:363-394 | response and store after each kind of request |
| `CborJson.JsonRoundTrip` | crates/client-crypto/src/cbor.rs:8-69 | JSON to CBOR and back gives the same value |
| `CborJson.RoundTripIff` | crates/client-crypto/src/cbor.rs:8-69 | CBOR to JSON and back gives the same value exactly for the values without bytes, tags, integers out of range, non-finite floats or names out of order |
| `CborJson.ToJsonStable` | crates/client-crypto/src/cbor.rs:8-69 | a second conversion to JSON changes nothing more |
| `CborJson.ToJsonWellFormed` | crates/client-crypto/src/cbor.rs:8-40 | whatever CBOR value is converted, names come out in order and numbers in range |
| `CborJson.IntegerToJsonIff` | crates/client-crypto/src/cbor.rs:71-81 | an integer becomes a number exactly if it fits 64 bits, and else its decimal text |
| `CborJson.DecimalRead` | crates/client-crypto/src/cbor.rs:80 | the decimal text determines the integer |
| `Json.LessIff` | crates/client-crypto/src/cbor.rs:26-36 | names are ordered by their first different characters, and a beginning comes first |
| `Json.CollectIs` | crates/client-crypto/src/cbor.rs:26-36 | members in order with distinct names are collected as they are |
| `Json.CollectExact` | crates/client-crypto/src/cbor.rs:26-36 | collected members are in order, and are of each name the last one |
| `BlobReference.FindValueIs` | crates/client-crypto/src/attachments.rs:151-171 | the search finds the first match of a pre-order listing, and of several names in one object the first named |
| `BlobReference.FoundIff` | crates/client-crypto/src/attachments.rs:151-171 | something is found exactly if some object anywhere in the value has one of the names |
| `BlobReference.FoundInside` | crates/client-crypto/src/attachments.rs:151-171 | what is found is one of the values strictly inside the searched one |
| `BlobReference.FoundSmaller` | crates/client-crypto/src/attachments.rs:173-212 | what is found is smaller, so the repeated extraction ends |
| `BlobReference.ExtractFromLeaf` | crates/client-crypto/src/attachments.rs:173-207 | text extraction gives the text where the repeated search ends, or the UTF-8 of an array of bytes there |
| `BlobReference.ExtractBytesFromLeaf` | crates/client-crypto/src/attachments.rs:195-212 | byte extraction gives the bytes of an array where the repeated search ends, or those of a base64 text |
| `BlobReference.JsonArrayToBytesIff` | crates/client-crypto/src/attachments.rs:214-219 | an array is bytes exactly if each item is a number from 0 to 255 |
| `BlobReference.OctetsExtracted` | crates/client-crypto/src/attachments.rs:195-212 | CBOR bytes that were converted to JSON are extracted as they were |
| `BlobReference.TagFound` | crates/client-crypto/src/cbor.rs:20-23 | tag and content of a tagged CBOR value are found in the JSON value it becomes |
| `BlobReference.LeafIsNoObject` | crates/client-crypto/src/attachments.rs:173-212 | that value is no object, and it is the whole or lies inside it |
| `DocxTables.FindTableEnd` | crates/client-runtime/src/attachments/render.rs:156-190 | the end of the shortest balanced run of table tags, or none exactly if there is none |
| `DocxTables.ClosesOnce` | crates/client-runtime/src/attachments/render.rs:156-190 | at most one position qualifies |
| `DocxProse.SegmentsFlatten` | crates/client-runtime/src/attachments/render.rs:135-154 | cutting a text into tables and the rest loses and moves nothing |
| `DocxProse.SegmentsCut` | crates/client-runtime/src/attachments/render.rs:135-154 | every table is found: each begins at the first opening tag since the one before, and what comes last has no table |
| `DocxProse.SegmentsUnique` | crates/client-runtime/src/attachments/render.rs:135-154 | there is only one such way to cut a text |
| `DocxProse.TablesRestored` | crates/client-runtime/src/attachments/render.rs:135-154 | tables that give way to themselves leave the text as it is |
| `DocxProse.TrimNewlinesExact` | crates/client-runtime/src/attachments/render.rs:148 | newlines are cut off a rewritten table at both ends, and only these |
| `DocxProse.TablesBalanced` | crates/client-runtime/src/attachments/render.rs:135-154 | every table handed to the HTML library is one balanced run |
| `DocxProse.NormalizeTables` | crates/client-runtime/src/attachments/render.rs:135-154 | exactly the tables are rewritten; the loop ends |
| `DocxPairs.ChunksCut` | crates/client-runtime/src/attachments/render.rs:93-133 | cutting a text at its tag pairs loses and moves nothing; each pair is the first opening tag with the first closing tag after it, and after the last pair there is none |
| `DocxPairs.CutUnique` | crates/client-runtime/src/attachments/render.rs:93-133 | there is only one such way to cut a text |
| `DocxPairs.RestoredWhole` | crates/client-runtime/src/attachments/render.rs:93-133 | pairs that give way to themselves leave the text as it is |
| `DocxPairs.NormalizePairs` | crates/client-runtime/src/attachments/render.rs:93-133 | the text around the pairs stays and each pair gives way to the rewriting of what it encloses; the loop ends |
| `DocxPairs.NoTagNoChange` | crates/client-runtime/src/attachments/render.rs:93-133 | a text without the tag does not change |
| `DocxProse.BodyKept` | crates/client-runtime/src/attachments/render.rs:109-126 | around a body that is not blank white space stays outside the markers |
| `DocxProse.BlankTwice` | crates/client-runtime/src/attachments/render.rs:109-126 | a body of white space alone comes out twice |
| `DocxProse.NormalizeProse` | crates/client-runtime/src/attachments/render.rs:85-91 | tables, then the four tags in order |
| `DocxLaws.OnePair` | crates/client-runtime/src/attachments/render.rs:85-133 | in a text with one pair of tags `<strong>` becomes `**`, `<em>` becomes `*`, `<s>` and `<del>` become `~~`, and nothing else changes |
| `DocxLaws.PlainDocument` | crates/client-runtime/src/attachments/render.rs:54-133 | a document without angle brackets does not change |
| `DocxMarkdown.NormalizeDocxMarkdown` | crates/client-runtime/src/attachments/render.rs:54-83 | the buffered loop rewrites each maximal run of prose as a whole and keeps fences and fenced lines |
| `DocxMarkdown.PiecesText` | crates/client-runtime/src/attachments/render.rs:54-83 | cutting a document into pieces loses and moves nothing |
| `DocxMarkdown.PiecesMaximal` | crates/client-runtime/src/attachments/render.rs:59-75 | no two runs of prose touch |
| `DocxMarkdown.PiecesVerbatim` | crates/client-runtime/src/attachments/render.rs:59-75 | fences and fenced lines, and only these, are kept, in their order |
| `DocxMarkdown.NormalizedSame` | crates/client-runtime/src/attachments/render.rs:54-83 | rewriting that changes no run of prose gives the document back |
| `DocxMarkdown.InCodeIff` | crates/client-runtime/src/attachments/render.rs:57-69 | a line is inside a fence exactly if an odd number of fences come before it |
| `DocxMarkdown.IsFenceIff` | crates/client-runtime/src/attachments/render.rs:60 | a fence is a line whose first three characters after white space are backquotes |
| `DocxMarkdown.LinesCut` | crates/client-runtime/src/attachments/render.rs:59 | a line ends at its first newline, and every line but the last has one |
| `DocxMarkdown.LinesJoin` | crates/client-runtime/src/attachments/render.rs:59 | the lines with their newlines are the whole text |

## Left out

- RotatingStrongBox.RotationTheorem: assumes a clock that does not go back; the methods also assume that no 64-bit second overflows, as the source does.
- SizeInversion.MaxPlaintextBytes: called only for limits for which the loop ends, and on exact integers; the rounding of floating-point limits above 2^53 is not modelled.
- Hkdf.HkdfExpand: the hash cannot fail, so clearing on the way of an error is not modelled; copies that the platform makes to hash are not arrays of the model.
- StrongBoxFormat.Parse: the CBOR library is not part of this model; its reading of heads and segments follows RFC 8949, and its errors are told apart only as truncated or malformed.
- WorkerClient.StrongBoxWorkerClient.Invoke: sending a message cannot fail, and ids do not run out of exact integers.
- DocxTables.FindTableEnd: positions count characters, not bytes of UTF-8.
- CborJson.RoundTripIff: floats are compared by their bits; the text of a JSON value used as a name is any function.
- The short circuit on `cache_invalid_at`, which is never set; the empty list of decryption keys; lifespans under one second.
- HPKE's key schedule, suite checks and envelopes: sequences of calls around the primitives modelled here.
- The clamping of X25519 scalars, done by the callers of the ladder.
- WASM memory and how its operations compute their results, which are functions given to the worker; the client's start-up handshake.
- Payload validation, DTO conversion, HTTP, sockets, files, the keychain and the command line.
- The HTML and DOCX converters, UTF-8 and base64 decoding: functions given as parameters.
