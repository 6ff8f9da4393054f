# Padding-oracle attack engine, modelled and verified in Dafny

This project models the attack engine of *padding-oracle-visual*
(`src/adversary.rs`). The engine recovers the plaintext of an AES-128-CBC
ciphertext by asking a padding oracle, over and over, whether a forged
two-block message decrypts to a validly PKCS#7-padded block. It has three parts:

- `determine_padding` flips the low bit of bytes 0, 1, … of the next-to-last
  block until the oracle rejects. That gives the padding length of the last
  block.
- `break_block_byte` recovers one plaintext byte. It forges the predecessor
  block so that the already known trailing bytes read as the next padding
  value, then tries every candidate for the byte before them. With no byte
  known yet, a second probe rules out a spurious candidate.
- `Adversary::break_ciphertext_fancy` treats the IV as block 0 and walks the
  blocks back to front, byte by byte. It prepends each finished block to the
  plaintext.

The oracle (`src/oracle.rs`) is a keyed value whose only answer is whether
CBC decryption of one block, under a given IV, is validly padded. In the
model, raw block decryption under the secret key is an arbitrary function
`decrypt: Block -> Block` that the attack never calls. The attack sees only
`Oracle.Test`.

Main results:

- **Whole-ciphertext recovery.** Suppose the last plaintext block is validly
  padded, as it is for every CBC encryption of a PKCS#7-padded message.
  Then `BreakCiphertext` returns exactly the CBC plaintext, padding included,
  whatever `decrypt` is. For every input it uses at most `16 + 16·n·257`
  oracle queries for `n` blocks.
- **End-to-end demo.** `RunDemo` (the demo in `main`, without its terminal
  display) pads and encrypts a message, and the attack gives it back. It
  needs only that `decrypt` inverts `encrypt`. The original's display can
  abort the run first; see "Behaviour of the code worth knowing".
- **Per-step results.** Padding discovery returns the true padding length,
  using `17 − k` queries. Each attacked byte accepts exactly the true
  candidate. With no byte known, at most two candidates pass the first probe.

Bytes are a `byte` newtype over `int` (`u8`). Bitwise XOR is defined bit by
bit, and its algebra (commutativity, associativity, cancellation, flipping
the low bit) is proved by induction. Oracle queries are counted in a ghost
out-parameter `queries` of every attack method. Each panic of the original
(`unwrap` on `None`) becomes an error result:

- `TooShort`: no full ciphertext block.
- `NoPadding`: `determine_padding` gave `None`.
- `NoByte`: `break_block_byte` gave `None`.

Files:

| file | content |
|---|---|
| `bytes.dfy` | bytes and their XOR |
| `blocks.dfy` | 16-byte blocks and PKCS#7 validity of one block |
| `oracle.dfy` | the oracle |
| `cbc.dfy` | CBC chaining, encryption, decryption and message padding |
| `adversary.dfy` | the attack engine |
| `demo.dfy` | the demo in `main` |

## Model

| member | source | states |
|---|---|---|
| Bytes.XorOne | src/adversary.rs:79-80 | `b ^ 0x1` flips the least-significant bit of `b`: it adds one to an even byte and subtracts one from an odd byte, so the byte always changes |
| Bytes.XorSolve | src/adversary.rs:154-155 | `a ^ x == c` has exactly one solution, `x == a ^ c`; this is why `x ^ new_padding` is the plaintext byte once `p ^ x == new_padding` |
| Bytes.XorAssoc | src/adversary.rs:132-137 | XOR of bytes is associative, so XOR-ing `m2` into `delta` and then `delta` into `c1` composes |
| Blocks.FlipLow | src/adversary.rs:147-148 | flipping the low bit of byte `i` changes that byte, by one, and leaves every other byte alone |
| Blocks.Pkcs7ValidIff | src/oracle.rs:21-30 | the padding check behind the oracle's answer (`Pkcs7Valid`) holds exactly when the last byte is a length `n` with `1 <= n <= 16` and each of the last `n` bytes holds `n` |
| Blocks.ValidRunAt | src/oracle.rs:21-30 | in a block the oracle accepts, each of the last `n` bytes holds the padding length `n` |
| Blocks.RunMakesValid | src/oracle.rs:21-30 | a last byte `n` in 1..16, repeated in each of the last `n` bytes, is accepted |
| Blocks.FlipInsideRunBreaksPadding | src/adversary.rs:82-92 | flipping the low bit of any byte inside the padding run of a valid block makes the oracle reject it |
| Blocks.XorMask | src/adversary.rs:136-137 | a mask XOR-ed into one operand of a block XOR appears XOR-ed into the result |
| PaddingOracle.Oracle.TestOneBlock | src/oracle.rs:21-30 | `test` on a one-block message: `Plain(iv, c)` is the CBC decryption of `c` under `iv`, and `Test` answers yes exactly when that block's last byte is a length `n` in 1..16 repeated in its last `n` bytes; no other information leaves the oracle |
| PaddingOracle.Oracle.Malleable | src/adversary.rs:82-86 | XOR-ing a mask into the IV XORs the same mask into the decrypted block, for every key: the attacker controls the plaintext the oracle checks |
| Cbc.Chunks | src/adversary.rs:21 | `chunks_exact(16)`: `|bytes| / 16` chunks, chunk `i` being bytes `16i .. 16i+16`; a trailing partial chunk is dropped |
| Cbc.Chain | src/adversary.rs:19-25 | the chain is the IV followed by the ciphertext chunks in order |
| Cbc.DecryptFrom | src/oracle.rs:22-23 | CBC decryption without unpadding: 16 bytes per block, plaintext block `i` being the decryption of block `i` XOR-ed with block `i - 1` |
| Cbc.Pad | src/main.rs:59 | PKCS#7 padding as `encrypt_vec` applies it: the result is a whole number of blocks, keeps the message as its prefix, and adds 1 to 16 bytes, each holding the number of bytes added |
| Cbc.Encrypt | src/main.rs:58-59 | CBC encryption as `encrypt_vec` applies it after padding: as long as its input, ciphertext block `i + 1` of the chain being the encryption of plaintext block `i` XOR-ed with ciphertext block `i`, block 0 being the IV |
| Cbc.PadShape | src/main.rs:57-59 | PKCS#7 padding keeps the message as a prefix, reaches a whole number of blocks (1 to 16 bytes added) and leaves a last block that is validly padded with length `16 - |msg| % 16` |
| Cbc.DecryptEncrypt | src/main.rs:57-59 | when `decrypt` inverts `encrypt`, CBC decryption of the CBC encryption of a padded message gives the padded message back |
| Cbc.DecryptFromLast | src/oracle.rs:21-23 | the last 16 bytes of a CBC decryption are the decryption of the last block under the next-to-last one |
| Adversary.FlipPrefixKeepsPadding | src/adversary.rs:82-88 | flips confined to the bytes before the padding run keep the block valid, with the same padding length |
| Adversary.FlipPrefixBreaksPadding | src/adversary.rs:85-91 | the flip that reaches the first padding byte (probe `17 - k` for padding length `k`) makes the block invalid |
| Adversary.PrefixProbesOfValidPadding | src/adversary.rs:76-92 | against a valid last block of padding length `k`, probes 0 .. `16 - k` are accepted and probe `17 - k` is rejected |
| Adversary.PaddingFound | src/adversary.rs:89-91 | a scan that stops at its first rejection, after `17 - k` probes, has found the true padding length `k` whenever the block is valid |
| Adversary.NoPaddingFound | src/adversary.rs:95-99 | a scan in which all 16 probes are accepted can only come from an invalid last block |
| Adversary.DeterminePadding | src/adversary.rs:68-102 | returns `Some(k)` with `1 <= k <= 16` after exactly `17 - k` queries: probes 1 .. `16 - k` accepted, probe `17 - k` rejected. Returns `None` after 16 accepted probes. For a valid last block, the result is `Some` of its true padding length |
| Adversary.BuildDelta | src/adversary.rs:124-134 | `delta` is 0 before the attacked byte, the candidate `x` at it and `known + 1` after it, with `m2` XOR-ed in byte by byte |
| Adversary.XorDelta | src/adversary.rs:124-137 | with the known bytes of `m2` correct, the forged block makes the oracle decrypt the true plaintext before the attacked byte, `p ^ x` at it and the new padding value after it |
| Adversary.PlainOfForged | src/adversary.rs:136-140 | the oracle's decryption of the forged predecessor is exactly that probed block |
| Adversary.ProbedValid | src/adversary.rs:117-121 | with at least one byte known, the probed block is valid exactly when the attacked byte reads as the new padding value `known + 1` |
| Adversary.ProbedLastValid | src/adversary.rs:144-150 | with no byte known, the probed block and its copy with byte 14 flipped are both valid exactly when the last byte reads 0x01 |
| Adversary.ProbedLastCandidates | src/adversary.rs:144-145 | with no byte known, a candidate passing the first probe makes the last byte read 0x01 or read as the value of byte 14 (a longer padding) |
| Adversary.ForgedProbes | src/adversary.rs:136-150 | the two oracle answers for candidate `x` are the validity of the probed block and of the probed block with byte 14 flipped |
| Adversary.AcceptsExactlyTrueByte | src/adversary.rs:139-158 | with the known suffix correct, candidate `x` is kept if and only if `x ^ (known + 1)` is the true plaintext byte |
| Adversary.TrueByteAccepted | src/adversary.rs:160-165 | with the known suffix correct, some candidate is kept, so the `None` return is unreachable |
| Adversary.TwoSolutions | src/adversary.rs:144-145 | at most two bytes `y` make `last ^ y` read 0x01 or `before` |
| Adversary.ProbedLastTwoCandidates | src/adversary.rs:144-145 | with no byte known, at most two candidates make the probed block valid |
| Adversary.FirstPassesOfSolvedSuffix | src/adversary.rs:140-146 | with no byte known, at most two candidates pass the first oracle probe |
| Adversary.QueryCountBounds | src/adversary.rs:140-150 | each rejected candidate costs one query, or two when no byte is known; exactly one each when a byte is known |
| Adversary.QueryCountOfTwoPasses | src/adversary.rs:140-150 | when at most two candidates pass the first probe, candidates `0 .. n-1` cost `n` queries plus one for each of those two below `n` |
| Adversary.QueryCountOfExactlyTwoPasses | src/adversary.rs:140-150 | when exactly two candidates pass the first probe, candidates `0 .. n-1` cost exactly `n` queries plus one for each of those two below `n` |
| Adversary.TryCandidate | src/adversary.rs:124-151 | one pass of the loop: the candidate is kept exactly when the first probe passes and, with no byte known, the probe with byte 14 flipped also passes. It costs one query, or two when no byte is known and the first probe passes |
| Adversary.BreakBlockByte | src/adversary.rs:104-169 | returns `m2` with byte `15 - known` set to `x ^ (known + 1)` for the smallest kept candidate `x`, having spent the queries of candidates `0 ..= x`. Returns `None` only when no candidate is kept. With the known suffix correct, the byte stored is the true plaintext byte, within 258 queries with no byte known and 256 otherwise |
| Adversary.SolvedByte | src/adversary.rs:152-158 | once candidate `x` is kept against a correct suffix, the stored byte is the true one and at most 258 (no byte known) or 256 queries were spent |
| Adversary.SpuriousCandidate | src/adversary.rs:140-150 | with no byte known and a plaintext ending in `02 FE`, candidate 0xFC passes the first probe (the block ends in `02 02`) and is rejected by the second |
| Adversary.KeptCandidate | src/adversary.rs:140-158 | with no byte known and a last plaintext byte 0xFE, candidate `x` is kept exactly when `x` is 0xFF |
| Adversary.CostliestByte | src/adversary.rs:115-167 | with no byte known and a plaintext ending in `02 FE`, the only candidates passing the first probe are 0xFC and 0xFF, only 0xFF is kept, and candidates 0 ..= 0xFF cost exactly 258 queries: by the contract of `BreakBlockByte`, recovering that byte costs 258 queries |
| Adversary.SolvedSuffixStep | src/adversary.rs:47-50 | storing the true byte extends the correctly known suffix by one byte |
| Adversary.BreakBlock | src/adversary.rs:47-54 | the `while padding < 16` loop: from a correct known suffix it recovers the whole plaintext block, within `(16 - known)·256` queries (+2 when starting from nothing). From any suffix with at least one byte known, it spends at most 256 queries per byte |
| Adversary.SeedPadding | src/adversary.rs:30-35 | the seed `m2` holds zeros, then `padding` copies of the byte `padding` |
| Adversary.SeedSolvesLast | src/adversary.rs:30-35 | for the true padding length of a valid last block, the seed is a correctly known suffix of that block |
| Adversary.BreakBlocks | src/adversary.rs:37-61 | walks the blocks back to front and prepends each: from a correct suffix of the last block it returns the whole CBC plaintext, within 4098 queries per block. The same bound holds from any seed with at least one byte known, since every earlier block starts from nothing known |
| Adversary.BreakCiphertext | src/adversary.rs:15-65 | fails with `TooShort` exactly when there is no full block. On success it returns 16 bytes per block. It spends at most `16 + 16·n·257` queries on every input. For a validly padded last block it returns exactly the CBC decryption, padding included |
| Demo.RunDemo | src/main.rs:57-70 | encrypting a padded message and attacking it through an oracle with the same key gives back exactly the padded message, within `16 + 257` queries per byte |

## Behaviour of the code worth knowing

- The recovered plaintext keeps its PKCS#7 padding. `break_ciphertext_fancy` splices each decrypted block into the plaintext as it is (`src/adversary.rs:57`). The display prints the padding bytes as hex after the text (`src/ui.rs:38-46`, `src/ui.rs:69-79`). `BreakCiphertext` and `RunDemo` return the padded message.
- A ciphertext whose length is not a multiple of 16 is not rejected. `chunks_exact(16)` drops the trailing partial chunk (`src/adversary.rs:21`), and the attack runs on the full blocks alone. `Chunks` states the drop, and `BreakCiphertext` returns `16·⌊|cipher| / 16⌋` bytes.
- Padding discovery flips bytes from the front of the block (`src/adversary.rs:76-92`). For padding length `k` it therefore spends `17 - k` queries: 16 for `k = 1`, one for `k = 16`. `DeterminePadding` states the exact count.
- With no byte known, each candidate that passes the first probe costs a second query (`src/adversary.rs:140-150`). Two candidates can pass it, so one byte can cost 258 queries. `CostliestByte` shows a block where this happens: the plaintext ends in `02 FE`, candidates 0xFC and 0xFF both pass, and only 0xFF is kept. The whole-message bound `16 + 16·n·257` still holds, because a block costs at most `16·256 + 2`.
- The display aborts the original on any message with a non-ASCII character. After every recovered byte, `break_ciphertext_fancy` calls `write_line` (`src/adversary.rs:53`), which runs `std::str::from_utf8(..).unwrap()` on the bytes recovered so far (`src/ui.rs:36`, `src/ui.rs:67`). Bytes are recovered back to front, so the trailing byte of a multi-byte character is decoded alone first. For the message "é" (`C3 A9`), the first call decodes `[A9]` and panics.

## Left out

- The terminal display (`write_line`, `src/ui.rs`, the final `println!`) is not modelled. The recovered plaintext is returned instead of drawn.
- RunDemo: the display's `from_utf8(..).unwrap()` panics (`src/ui.rs:36`, `src/ui.rs:67`) abort the original on any message with a non-ASCII character. The model and `RunDemo` describe the attack without that abort.
- Reading the key and the message from standard input, HKDF-SHA256 key derivation and the random IV from `OsRng` are left out. The IV and the message are parameters, and the key exists only through `encrypt`/`decrypt`.
- AES-128 is an arbitrary function on blocks. Only `decrypt(encrypt(b)) == b` is required, and only by `RunDemo`. The attack results hold for every `decrypt`.
- `Oracle.Test` takes exactly one 16-byte IV and one 16-byte block, which is all the attack ever sends. The source's `decrypt_vec` on other lengths and multi-block inputs is not modelled.
- Panics are modelled as error results: `unwrap` on `None`, and `split_last` on a chain without a ciphertext block. Memory-safety panics that cannot occur (indices are always below 16) have no counterpart.
- `Adversary::new` and `Oracle::new` only store their arguments. They are represented by passing the values themselves.
- BreakBlock: starting from a wrong known suffix, only the query bound is stated, not which bytes end up stored.
- BreakBlocks: starting from a wrong known suffix of the last block, only the length of the result and the query bound are stated.
- BreakCiphertext: when the last block is not validly padded, only the error cases, the result length and the query bound are stated, not which bytes are returned.
