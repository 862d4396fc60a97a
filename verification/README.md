# Hekate Mobile example provers: a verified model

This project models the provers of the example crate and the Swift and Kotlin code around them, and proves what
they are for:

- **The two hash-preimage circuits.** A circuit and a table builder are written as data and as step-by-step builders
  (`Circuits.dfy`). For Keccak-256 and for SHA-256, the built circuit is shown to say exactly a set of row equations;
  every table that meets them holds a message of exactly the stated length with the published digest (soundness); the
  table the prover writes meets them and gives the message back (completeness). Together: a digest and a length are
  provable if and only if a message of that length has that digest. This holds for every block count, for every
  permutation or compression function, for every height of a Keccak block that leaves a row after the blocks, and
  whatever a gated equation means on the last row: nothing, or an equation with the first row or any row at all as the
  successor (`Edge`).
- **Row counts and capacities**, with the exact exponents for which a capacity is the threshold it is meant to be.
- **The ML-DSA host table**: of all tables the prover can write, those that satisfy the circuit are exactly the ones
  written from words that pass the runtime check, and no other table satisfies it.
- **Byte codecs**: RSA limbs, little-endian words, the hex program id.
- **The DER reader** for RSA public keys: the exact set of byte strings it accepts.
- **Cancellation**, over all interleavings of a two-flag token with a prove call, and of a whole Swift or Kotlin call, in
  which the finished call and the cancellation compete for the caller's continuation; and a **one-shot event** under a
  lock. The token, the prove call and the event are also written as code, each method proved to be steps of its machine.
- **Stream expansion**: the Swift and the Kotlin loop compute the same bytes.

`Bytes`, `Numbers`, `PowersOfTwo`, `Circuits` and `Errors` are shared; the other files are named after what they model.
`dafny verify dfyconfig.toml` checks the project.

## What is assumed

- The permutation, the compression function, the digest function and the ML-DSA pipeline are parameters: every theorem
  holds for all of them. The one thing trusted of a hash chiplet is its contract (`ChipletContract`): on the service
  rows that the circuit's service call selects, up to the blocks the chiplet was mounted for, the columns the call passes
  hold the output as the function of the input. The bus argument behind it is not part of this model.
- The trace builder of `hekate_core` starts with every cell zero, and a setter fails exactly when the cell is outside the
  table or the column has another kind; its code is not part of this model.
- The rules of the two concurrency libraries. Swift: cancelling a task calls the handler in place at that moment; a handler
  put in place on a cancelled task runs at once; it stays in place until the awaited value is returned; the detached task
  is not cancelled. Kotlin: `withContext` does not start its block for a caller cancelled by then; a continuation is
  active, completed or cancelled, and the first of `resumeWith` and the cancellation to move it settles it, the other
  being ignored; a cancellation that settles it calls the handler, at once if it is registered later; a successful result
  is dropped for a CancellationException when the caller is cancelled by the time it would be delivered, while an
  exception the block ended with is thrown all the same.
- Host cells are 64 bits wide, the widest host column. Field addition is exclusive or; a product is zero exactly when a
  factor is zero, because a field has no zero divisors.
- `hekate_keccak`, `hekate_sha2` and `hekate_program` are not part of this model. Taken from how the modelled code uses
  them: lanes are columns 0 to 24 and the selector column 25 of the Keccak host; the SHA-256 host block is the hash
  value, the message block and the output, in this order; a cadence repeats its values from row 0 and is zero elsewhere;
  a Keccak service selector marks the first and the last row of each block. The height of a Keccak block is a parameter
  of the circuit, the trace and their theorems; the library's `BLOCK_ROWS` is 25, the value the published capacities fix
  (5.44 MiB at 2^20 rows, 174 KiB at 2^15; README.md:30-32). `KeccakSpongeNative` and `pad_message` follow FIPS 202 (sections 4 and 5.1, with the domain byte 0x01) and FIPS 180-4 (section 5.1.1).
- `usize` is 64 bits, as on every supported device.

## Model

| member | source | states |
|---|---|---|
| Circuits.GatedEqualityRows | examples/prover/src/sha256.rs:209-214 | A gated sum of a cell and its successor is an equality on exactly the rows where the gate is on; with the gate off on the last row, no meaning of a gate there matters. |
| Circuits.GatedDifference | examples/prover/src/keccak.rs:245 | The seam equation fixes the difference of two successive cells to a constant where the gate is on. |
| Circuits.TraceBuilder.Set | examples/prover/src/keccak.rs:269-282 | A cell write succeeds exactly inside the table with the column's own kind, and changes that cell alone. |
| Circuits.FitsExactly | examples/prover/src/mldsa.rs:36-41 | A value fits a column exactly when it is a number of the column's bits. |
| Circuits.EmbedValue | examples/prover/src/mldsa.rs:135-141 | The cell of a word has the word's value. |
| Numbers.LaneValue | examples/prover/src/keccak.rs:149-154 | A lane read from eight bytes is the number they spell, least significant first. |
| Numbers.LaneBytesValue | examples/prover/src/keccak.rs:330-337 | The eight bytes of a lane spell its value, least significant first. |
| Numbers.WordLeValue | examples/prover/src/mldsa.rs:282-289 | A word read from four bytes is the number they spell, least significant first. |
| Numbers.BeWordValue | examples/prover/src/rsa.rs:139-143 | A word read from four bytes is the number they spell, most significant first. |
| KeccakSponge.SpongeParameters | examples/prover/src/keccak.rs:25-31 | Rate, lanes and digest are those of a 1600-bit state with a capacity of 512 bits. |
| KeccakSponge.PadIsStandard | examples/prover/src/keccak.rs:339-359 | The padding bit by bit, for messages of any length: the message, a one, as few zeros as reach a whole block, and a one. |
| KeccakSponge.PaddingRefinesBytes | examples/prover/src/keccak.rs:343-359 | Byte-level pad10*1 of a message of whole lanes is the message's lanes followed by the lanes `pad_lanes` yields, both markers in one lane and a whole padding block included, and those start at lane `first` of block len / 136. |
| KeccakSponge.PadBytesAsLanes | examples/prover/src/keccak.rs:346-358 | The pad bytes, read as little-endian lanes, are the required pad lanes one by one. |
| KeccakSponge.LanesSpell | examples/prover/src/keccak.rs:149-154 | Lane i of a byte string is the number its eight bytes spell, least significant first. |
| KeccakCircuit.BuildProgram | examples/prover/src/keccak.rs:165-256 | The builder's loops and branches assemble the program that the theorems are about, columns, gates, boundaries, equations, publications, the service call and the mounted chiplet alike. |
| KeccakCircuit.RequirePadding | examples/prover/src/keccak.rs:228-247 | One block is padded by boundary cells, more than one by gated seam equations, for each pad lane in order. |
| KeccakCircuit.CircuitMeaning | examples/prover/src/keccak.rs:165-256 | A table satisfies the compiled circuit if and only if it meets the row equations: gates at the service, output and seam rows, zero capacity at row 0, capacity carried after every output row, padded last block, digest published. |
| KeccakCircuit.CarryMeaning | examples/prover/src/keccak.rs:221-226 | The carry equations hold exactly when the row after every output row, the last one included, keeps the capacity lanes. |
| KeccakCircuit.SeamMeaning | examples/prover/src/keccak.rs:234-247 | The seam equations hold exactly when the last absorbed block ends in the required padding. |
| KeccakCircuit.OneBlockMeaning | examples/prover/src/keccak.rs:229-233 | With one block the boundary cells say the same as the seam says with more. |
| KeccakSoundness.OutputIsSpongeState | examples/prover/src/keccak.rs:217-226 | By induction over the blocks, every output row holds the sponge state after its block. |
| KeccakSoundness.AbsorbedIsPaddedMessage | examples/prover/src/keccak.rs:228-247 | What a table absorbs is the padded message that is read off it, for any table that meets the padding constraints. |
| KeccakSoundness.ContractMeaning | examples/prover/src/keccak.rs:175-179 | The columns and the selector of the circuit's own service call, and the blocks of its own mounted chiplet, make the chiplet contract say that every block's output row is the permutation of its input row. |
| KeccakSoundness.Soundness | examples/prover/src/keccak.rs:165-256 | Every satisfying table under the chiplet contract holds a message of exactly the stated length, and the published lanes are its Keccak-256 digest, for every height of a block. |
| KeccakTrace.WriteBlock | examples/prover/src/keccak.rs:265-282 | The two service rows of a block are written with their gates, and it fails exactly when the output row is outside the table. |
| KeccakTrace.BuildTrace | examples/prover/src/keccak.rs:258-294 | The loop succeeds exactly when a row is left after the last block, and then its table is the host table of the calls, seam bit and capacity row included. |
| KeccakCompleteness.CallsChain | examples/prover/src/keccak.rs:310-315 | Each call's input is the previous output with its block added in the rate and the capacity unchanged; each output is the sponge state. |
| KeccakCompleteness.HostRow | examples/prover/src/keccak.rs:263-293 | The gates the loop writes equal the fixed columns on every row, and each row's lanes are those of its call. |
| KeccakCompleteness.HostTableCarries | examples/prover/src/keccak.rs:285-289 | The written table carries the capacity after every output row, also out of the last block into the extra row. |
| KeccakCompleteness.Completeness | examples/prover/src/keccak.rs:258-308 | For every message of whole lanes the written table satisfies the circuit under the message's digest and the chiplet contract, and extraction gives the message back. |
| KeccakStatement.RowIsLeftExactly | examples/prover/src/keccak.rs:49-53 | A row is left after the blocks of every message if and only if the height of a block is no power of two, so the extra row and every gated successor exist. |
| KeccakStatement.LibraryHeight | examples/prover/src/keccak.rs:51 | The library's height is no power of two. |
| PowersOfTwo.FactorOfPow2 | examples/prover/src/keccak.rs:51-53 | Every factor of a power of two is a power of two. |
| PowersOfTwo.OddFactorIsNoPow2 | examples/prover/src/keccak.rs:51-53 | No multiple of an odd number above one is a power of two, whatever the block height. |
| PowersOfTwo.NextPow2Least | examples/prover/src/keccak.rs:51-53 | Rounding up gives the least power of two that reaches its argument. |
| PowersOfTwo.NextPow2OfLog2 | examples/prover/src/keccak.rs:262 | Two to the trailing zeros of a row count is the row count, so the builder's table has the statement's rows. |
| KeccakStatement.RowCountFitsAWord | examples/prover/src/keccak.rs:49-53 | No 64-bit message length overflows the row count. |
| KeccakStatement.CapacityIsThreshold | examples/prover/src/keccak.rs:96-103 | num_rows(len) <= 2^k holds for exactly the lane-aligned lengths up to capacity(k), and the capacity fills 2^k rows, if and only if 8 <= k <= 61; the code returns a number that is not the threshold for every other k. |
| KeccakStatement.NewStatement | examples/prover/src/keccak.rs:42-59 | A statement exists exactly for lengths of whole lanes whose circuit the library builds, with the circuit and row count determined by the length. |
| KeccakStatement.Prove | examples/prover/src/keccak.rs:105-116 | A prove call stops for a requested token, then refuses a message off the lane grid or a statement that cannot be built, and no other; otherwise its table, circuit and public lanes are those of the message, and the table runs out of rows only where blocks of that height fill it. |
| KeccakStatement.VerifierRebuildsProverStatement | examples/prover/src/keccak.rs:130-163 | From the digest and the length the verifier rebuilds the prover's circuit, row count and public lanes. |
| KeccakStatement.AcceptedTableHoldsPreimage | examples/prover/src/keccak.rs:130-163 | Whatever table is accepted for 32 digest bytes and a length holds a message of that length with that digest. |
| KeccakStatement.ProvableIffPreimageExists | examples/prover/src/keccak.rs:105-256 | A digest and a length are provable exactly when the length is a multiple of 8 and some message of it has that digest, for every byte string given as a digest, every length, and every height of a block that is no power of two. |
| KeccakStatement.DigestBytes | examples/prover/src/keccak.rs:330-337 | The loop over chunks writes the lanes in order, eight bytes each that spell the lane, least significant first. |
| KeccakStatement.HashMessage | examples/prover/src/keccak.rs:89-93 | The exported hash is Keccak-256 of the message, for messages of any length; its bytes spell the first four lanes of the last state. |
| Sha256Hash.BitLengthIsExact | examples/prover/src/sha256.rs:297 | The 64-bit bit length is the true one exactly below 2^61 bytes. |
| Sha256Hash.PadIsStandard | examples/prover/src/sha256.rs:269-306 | The padding byte by byte, for messages of any length below 2^61 bytes: the message, a one bit, as few zeros as reach a whole block, and eight bytes that spell the length in bits. |
| Sha256Hash.PaddingBlockSpells | examples/prover/src/sha256.rs:296-306 | The padding block is a one bit, zeros, and two words that spell 8 times the length, below 2^61 bytes. |
| Sha256Hash.IvIsStandard | examples/prover/src/sha256.rs:200-202 | The initial words are the first 32 fractional bits of the square roots of the first eight primes. |
| Sha256Hash.PaddingRefinesBytes | examples/prover/src/sha256.rs:296-306 | A message of whole blocks pads to its own words followed by the padding block, and to one block more than it has. |
| Sha256Hash.BuildPaddingBlock | examples/prover/src/sha256.rs:296-306 | The array filled in place is the padding block: the marker bit, zeros, and the bit length in two words. |
| Sha256Hash.PaddingBytesAsWords | examples/prover/src/sha256.rs:296-306 | Reading the padding bytes of the standard as big-endian words gives the required block. |
| Sha256Hash.Sha256Calls | examples/prover/src/sha256.rs:269-287 | Threading the hash value through the padded blocks makes the calls of the standard's chain, and the last output is the digest of the message. |
| Sha256Circuit.BuildProgram | examples/prover/src/sha256.rs:163-231 | The builder's loops, with the padding block filled in place, assemble the program that the theorems are about, carry and chain equations interleaved, the service call and the mounted chiplet included. |
| Sha256Circuit.StateProductMeaning | examples/prover/src/sha256.rs:203-215 | A carry or chain equation holds on all rows exactly when its word is held or handed over at the gated rows; both gates are off on the last row even when the blocks fill the table. |
| Sha256Circuit.CircuitMeaning | examples/prover/src/sha256.rs:163-231 | A table satisfies the compiled circuit if and only if it meets the row equations: gates, initial hash value, output held over a block, output handed to the next block, padding block last, digest published. |
| Sha256Soundness.OutputReaches | examples/prover/src/sha256.rs:186-192 | By induction over the rows, the output of a block's first row is still there on its last row. |
| Sha256Soundness.OutputIsChained | examples/prover/src/sha256.rs:203-215 | By induction over the blocks, every first row holds the hash value after its block. |
| Sha256Soundness.HashedIsPaddedMessage | examples/prover/src/sha256.rs:218-222 | The words a table hashes are the padded words of the message read off it. |
| Sha256Soundness.ContractMeaning | examples/prover/src/sha256.rs:170-176 | The circuit's own service call and mounted chiplet make the chiplet contract say that every active row's output is the compression of its hash value and block. |
| Sha256Soundness.Soundness | examples/prover/src/sha256.rs:163-231 | Every satisfying table under the chiplet contract holds a message of exactly the stated length, and the published words are its SHA-256 digest, for every block count including one. |
| Sha256Trace.WriteBlock | examples/prover/src/sha256.rs:242-258 | The nested loops write one call on all rows of its block with its three gates; it fails exactly when the block does not fit. |
| Sha256Trace.BuildTrace | examples/prover/src/sha256.rs:233-260 | The loop succeeds exactly when the blocks fit the table, which they may fill, and its table is the host table of the calls. |
| Sha256Completeness.HostTableIsShaped | examples/prover/src/sha256.rs:249-257 | The gates the loops write equal the fixed columns on every row, and every cell fits its column. |
| Sha256Completeness.HostTableIsChained | examples/prover/src/sha256.rs:233-287 | In the written table every block but the last hands its output to the next one. |
| Sha256Completeness.Completeness | examples/prover/src/sha256.rs:233-287 | For every message of whole blocks the written table satisfies the circuit under the message's digest and the chiplet contract, and extraction gives the message back. |
| Sha256Statement.BlocksFitTheRows | examples/prover/src/sha256.rs:48-52 | The blocks fit the row count, which is a power of two. |
| Sha256Statement.RowCountFitsAWord | examples/prover/src/sha256.rs:48-52 | No 64-bit message length overflows the row count. |
| Sha256Statement.CapacityIsThreshold | examples/prover/src/sha256.rs:95-102 | num_rows(len) <= 2^k holds for exactly the block-aligned lengths up to capacity(k), and the capacity fills 2^k rows, if and only if 8 <= k <= 62. |
| Sha256Statement.Prove | examples/prover/src/sha256.rs:104-114 | A prove call stops for a requested token, then refuses a message off the block grid or a statement that cannot be built, and no other; otherwise its table, circuit and public words are those of the message. |
| Sha256Statement.VerifierRebuildsProverStatement | examples/prover/src/sha256.rs:128-161 | From the digest and the length the verifier rebuilds the prover's circuit, row count and public words. |
| Sha256Statement.AcceptedTableHoldsPreimage | examples/prover/src/sha256.rs:128-161 | Whatever table is accepted for 32 digest bytes and a length holds a message of that length with that digest. |
| Sha256Statement.ProvableIffPreimageExists | examples/prover/src/sha256.rs:104-231 | A digest and a length are provable exactly when the length is a multiple of 64 and some message of it has that digest, for every byte string given as a digest and every length. |
| MlDsa.BuildProgram | examples/prover/src/mldsa.rs:83-133 | The builder assembles the host circuit for any key, message and signature sizes, calling the service with the word column, and publishing the words of M' and then those of the key hash. |
| MlDsa.SizesFollowParameters | examples/prover/src/mldsa.rs:24-32 | The sizes of keys, signatures, M' and key hash follow from the parameters of ML-DSA-65. |
| MlDsa.WordCountIsLeast | examples/prover/src/mldsa.rs:86-88 | A byte string takes as many words as hold it and no more. |
| MlDsa.PublishedLayout | examples/prover/src/mldsa.rs:86-94 | Of the pipeline's words, those of the public key, M', the signature, the key hash and one more digest, the published rows hold those of M' and of the key hash. |
| MlDsa.PublishedExactly | examples/prover/src/mldsa.rs:157-177 | The runtime check accepts words of that layout exactly for the M' and the key hash packed in them. |
| MlDsa.CircuitMeaning | examples/prover/src/mldsa.rs:99-119 | A table satisfies the circuit if and only if the selector marks exactly the service rows, every word outside them is zero, and the published cells are the public values in order. |
| MlDsa.HostTrace | examples/prover/src/mldsa.rs:143-155 | Filling the table succeeds exactly when the words fit the rows, and writes each word with its selector and nothing else. |
| MlDsa.HostTableSatisfiesIffPublished | examples/prover/src/mldsa.rs:135-177 | For any words that fit the table, whatever their number, the table written from them satisfies the circuit under an instance if and only if the runtime check accepts them, number included, for that message and key hash. |
| MlDsa.SatisfyingTableIsHostTable | examples/prover/src/mldsa.rs:99-177 | Every satisfying table is the one written from its own service words, and those pass the runtime check. |
| MlDsa.LeWordsInvert | examples/prover/src/mldsa.rs:282-289 | Packing with a zero-filled last chunk is undone once the byte length is known. |
| MlDsa.LeWordsValue | examples/prover/src/mldsa.rs:282-289 | The words spell the number the bytes spell, least significant first, whatever the last chunk holds. |
| MlDsa.MPrimeExactly | examples/prover/src/mldsa.rs:259-263 | M' exists for 32-byte messages only, and is the one byte string that reads as pure mode, an empty context and the message. |
| MlDsa.LeWordsForgetLength | examples/prover/src/mldsa.rs:282-289 | Without the length it is not: two byte strings of different lengths have the same words. |
| MlDsa.InstanceBinds | examples/prover/src/mldsa.rs:135-141 | Equal public values come from equal messages and equal key hashes. |
| MlDsa.VerifierViewBinds | examples/prover/src/mldsa.rs:232-257 | A verifier that gets an instance from a message and a key hash of any lengths has it from that pair alone. |
| MlDsa.Prove | examples/prover/src/mldsa.rs:180-220 | Whatever the pipeline returns, a job that gets through has a table that satisfies its circuit and is the instance a verifier rebuilds; each kind of failure happens exactly for its cause. |
| Rsa.LimbsKeepValue | examples/prover/src/rsa.rs:134-144 | The sum of limb[j] * 2^(32 j) is the big-endian value of the bytes, for every byte string of whole words. |
| Rsa.BytesOfLimbs | examples/prover/src/rsa.rs:134-144 | The bytes are recovered from the limbs, so the map loses nothing. |
| Rsa.LimbsOfBytes | examples/prover/src/rsa.rs:134-144 | Every limb vector is the image of a byte string, so with the row above the map is a bijection. |
| Rsa.LimbsHold2048Bits | examples/prover/src/rsa.rs:134-144 | The limbs of 256-byte strings are exactly the numbers below 2^2048. |
| Rsa.OneBlockMessages | examples/prover/src/rsa.rs:56-64 | A message pads to the one hashed block exactly up to 55 bytes. |
| Rsa.Check | examples/prover/src/rsa.rs:50-76 | The checks before the witness, in order, tell a requested token, wrong sizes, a statement that cannot be built, a refused exponentiation and a wrong signature apart; what passes keeps the values of the modulus and the signature. |
| RsaSigner.DerReader.ReadLengthOctets | examples/ios/HekateExamples/RsaSigner.swift:172-191 | The mutating length read consumes exactly the length octets, short form or one or two octets, and folds them most significant first. |
| RsaSigner.DerReader.ReadContent | examples/ios/HekateExamples/RsaSigner.swift:155-170 | The mutating read returns the content of the expected tag and leaves what follows it, or fails with its reason. |
| RsaSigner.ReadEncodedLength | examples/ios/HekateExamples/RsaSigner.swift:172-191 | A length written in any of the three forms is read back, with the bytes behind it untouched. |
| RsaSigner.ReadLengthIsEncoded | examples/ios/HekateExamples/RsaSigner.swift:172-191 | Every length that is read was written in one of those forms. |
| RsaSigner.LengthOctets | examples/ios/HekateExamples/RsaSigner.swift:172-191 | A written length is one octet below 128, or 128 plus the number of octets that follow and spell it. |
| RsaSigner.IsModulusExactly | examples/ios/HekateExamples/RsaSigner.swift:103-105 | 256 bytes are taken as a modulus exactly when they spell a number of 2048 bits. |
| RsaSigner.PublicExponentValue | examples/ios/HekateExamples/RsaSigner.swift:29 | The exponent that is demanded is 65537. |
| RsaSigner.ModulusFromPkcs1PublicKey | examples/ios/HekateExamples/RsaSigner.swift:86-108 | Two readers driven in sequence compute the parse, with the errors in the order of the checks. |
| RsaSigner.AcceptedExactly | examples/ios/HekateExamples/RsaSigner.swift:86-108 | A modulus is returned if and only if the input is one SEQUENCE of two INTEGERs with nothing left over, the second 65537, the first that modulus, any number of 2048 bits, with or without its sign octet. |
| RsaSigner.ReadsWhatIsPrinted | examples/ios/HekateExamples/RsaSigner.swift:86-108 | Parsing the DER encoding of any number of 2048 bits returns its 256 bytes. |
| RsaSigner.PrintIsSpelledOut | examples/ios/HekateExamples/RsaSigner.swift:141-191 | That DER encoding, byte by byte. |
| RsaSigner.SignOctetKeepsValue | examples/ios/HekateExamples/RsaSigner.swift:101-107 | Dropping the sign octet keeps the unsigned value of the INTEGER. |
| RsaSigner.AcceptedIsDerExactly | examples/ios/HekateExamples/RsaSigner.swift:172-191 | An accepted input is the DER encoding of its modulus exactly when it is 270 bytes long with a zero sign octet. |
| RsaSigner.AcceptsMoreThanDer | examples/ios/HekateExamples/RsaSigner.swift:172-191 | An accepted input that no DER printer writes: padded exponent length, no sign octet. |
| Cancellation.CancelToken.Request | examples/prover/src/lib.rs:108-111 | A request is the machine's outer store and then its inner store, with the invariant that the inner flag implies the outer one in between. |
| Cancellation.CancelToken.RequestInner | examples/prover/src/lib.rs:110 | The inner store alone, which needs a request whose outer store is done. |
| Cancellation.EnsureNotCancelled | examples/prover/src/lib.rs:134-139 | Reading the outer flag is the machine's check, at entry and after the witness, with or without a token. |
| Cancellation.ProveCall | examples/prover/src/lib.rs:141-178 | The order of checks of a whole prove call is a run of the machine; a request before it starts ends in cancellation, and one while the witness is built never in a proof. |
| Cancellation.OuterBeforeInner | examples/prover/src/lib.rs:108-111 | In every interleaving the inner flag implies the outer one, and a call ends cancelled only after a request on a token it was given. |
| Cancellation.EarlyRequestCancels | examples/prover/src/lib.rs:134-139 | A flag set before the entry check ends in cancellation in every interleaving. |
| Cancellation.ProofIsPossibleExactly | examples/prover/src/lib.rs:141-149 | From any state some schedule ends in a proof if and only if the flag is not set or the post-witness check has passed; a flag set before that check never ends in a proof. |
| Cancellation.OutcomesExactly | examples/prover/src/lib.rs:141-178 | From any state of a run, exactly which outcomes some schedule reaches: a proof, a cancellation whenever there is a token, each error as long as a step that reports it lies ahead. |
| Cancellation.ProverFinishes | examples/prover/src/lib.rs:141-178 | Requests never block the prover, which always has a step and takes at most five. |
| HostWrappers.DeliversAtMostOnce | kotlin/lib/src/main/kotlin/dev/oumuamua/hekate/HekateProver.kt:22-32 | In every run of either wrapper, with the call and the cancellation competing for the continuation, at most one outcome is delivered; a value is the call's own result; a continuation cancelled first drops the value; a Kotlin caller cancelled before the delivery never gets a proof: the error of a call that failed and settled first, and a CancellationException otherwise. |
| HostWrappers.ErrorOutlivesCancellation | kotlin/lib/src/main/kotlin/dev/oumuamua/hekate/HekateProver.kt:28-31 | A Kotlin call fails and settles, its caller is cancelled before the delivery, and the caller still gets the error. |
| HostWrappers.SettledForGood | kotlin/lib/src/main/kotlin/dev/oumuamua/hekate/HekateProver.kt:28-31 | The contender that moves the continuation first has settled it for the rest of the run. |
| HostWrappers.DeliveriesExactly | swift/Sources/Hekate/HekateProver.swift:20-33 | Exactly what a caller can get: in Swift every outcome of the call; in Kotlin every outcome but the call's own cancellation, and a CancellationException. |
| HostWrappers.RefusedRunsDoNothing | kotlin/lib/src/main/kotlin/dev/oumuamua/hekate/HekateProver.kt:25-26 | Only a Kotlin call is refused, its caller gets a CancellationException, and no call runs and no flag is set. |
| HostWrappers.LateRegistrationCancels | swift/Sources/Hekate/HekateProver.swift:26-32 | A caller already cancelled when the handler is registered never gets a proof. |
| HostWrappers.FinishedRunsDeliverOnce | swift/Sources/Hekate/HekateProver.swift:20-33 | Every run ends within sixteen moves with exactly one outcome; both flags of the token are set exactly when a Swift caller was cancelled before the delivery, or the cancellation settled a Kotlin continuation, and else neither. |
| ProgramId.Decode | examples/prover/src/lib.rs:223-247 | Decoding succeeds exactly on 64 lowercase hex digits, with the one id that prints as them and is the number they spell in base 16; otherwise it names the length or the first bad pair. |
| ProgramId.PrintIsLowercaseHex | examples/prover/src/lib.rs:249-255 | Every printed id is lowercase hex, so decoding takes it. |
| ProgramId.PrintValue | examples/prover/src/lib.rs:249-255 | A printed id spells, in base 16, the number its bytes spell. |
| ProgramId.PrintDecides | examples/prover/src/lib.rs:223-255 | Two ids that print alike are the same id. |
| AsyncEvents.AsyncEvent.TakeWaiters | swift/Tests/HekateTests/HekateProverTests.swift:115-121 | Under the lock a signal is the machine's step: it takes the whole queue, empties it and sets the flag. |
| AsyncEvents.AsyncEvent.Signal | swift/Tests/HekateTests/HekateProverTests.swift:114-124 | A whole signal, its loop of resumptions included, is a run of the machine that resumes every waiter queued before it. |
| AsyncEvents.AsyncEvent.Wait | swift/Tests/HekateTests/HekateProverTests.swift:126-137 | A whole wait is a run of the machine that queues the waiter before the event fired and resumes it after. |
| AsyncEvents.AsyncEvent.Enter | swift/Tests/HekateTests/HekateProverTests.swift:128-135 | Under the lock a wait is the machine's step: it queues, or is told to resume itself when the event has fired. |
| AsyncEvents.WaitersResumeExactlyOnce | swift/Tests/HekateTests/HekateProverTests.swift:109-138 | In every interleaving of any number of waits and signals a waiter is resumed at most once and never before the event fired, none stays queued after it, and when all threads are done each that entered was resumed exactly once. |
| AsyncEvents.AnyoneMayEnter | swift/Tests/HekateTests/HekateProverTests.swift:126-137 | Any set of waiters enters in some run. |
| AsyncEvents.EveryoneCanBeResumed | swift/Tests/HekateTests/HekateProverTests.swift:114-124 | From any state of a run, a signal and threads that go on resume everyone who entered, exactly once. |
| AsyncEvents.SomeThreadCanResume | swift/Tests/HekateTests/HekateProverTests.swift:123 | While a resumption is outstanding some thread can do it. |
| Sessions.SwiftExpand | examples/ios/HekateExamples/Sessions.swift:11-25 | Appending whole digests and cutting returns the count-byte prefix of the stream, and the counter does not overflow. |
| Sessions.KotlinExpand | examples/android/app/src/main/kotlin/dev/oumuamua/hekate/examples/Sessions.kt:46-68 | Filling a fixed array with a clipped last digest returns the same bytes; the digest and the counter buffer are reused objects. |
| Sessions.CounterBytesSpell | examples/ios/HekateExamples/Sessions.swift:18 | Eight bytes are the counter's exactly when they spell it, least significant first. |
| Sessions.ExpandAt | examples/ios/HekateExamples/Sessions.swift:11-25 | Byte k of a message is byte k % 32 of the digest of the seed followed by the eight bytes that spell k / 32, least significant first. |
| Sessions.ExpansionsAreNested | examples/ios/HekateExamples/Sessions.swift:24 | A shorter expansion is a prefix of a longer one. |

## Left out

- The proof system itself: prover, verifier, transcripts, zero knowledge, seeds, zeroization, timing and panic catching. A panic is one more outcome of a prove call.
- The chiplets' own columns and the bus that ties them to the host table; their contract stands in for them.
- The Keccak-f rounds, the SHA-256 rounds, modular exponentiation and the ML-DSA pipeline, which are parameters.
- KeccakCircuit.BuildProgram: of the mounted chiplet it keeps the rows and the blocks it is mounted for; the chiplet's own columns and constraints are left to the chiplet contract.
- Sha256Circuit.BuildProgram: of the mounted chiplet it keeps the rows and the blocks; its own columns and constraints, and the library's code that connects the block, are left to the chiplet contract.
- MlDsa.BuildProgram: the attached pipeline definitions are left out; the words they consume are the pipeline's result.
- KeccakTrace.BuildTrace: the chiplet columns appended to the host table afterwards, and their errors, are left out.
- Sha256Trace.BuildTrace: the chiplet columns appended to the host table afterwards, and their errors, are left out.
- KeccakStatement.Prove: ends where `run_prover` begins, which is `Cancellation.ProveCall`.
- Sha256Statement.Prove: ends where `run_prover` begins, which is `Cancellation.ProveCall`.
- Circuits.TraceBuilder.Set: the setters' own code is in `hekate_core`; when they fail is an assumption, stated above.
- AsyncEvents.AsyncEvent.Signal: as code, it runs without interruption; interleavings are those of the machine it is a run of.
- AsyncEvents.AsyncEvent.Wait: as code, it runs without interruption; interleavings are those of the machine it is a run of.
- Cancellation.ProveCall: as code, another thread requests only while the witness is built; requests at any other moment are those of the machine it is a run of.
- MlDsa.Prove: ends where `run_prover` begins, which is `Cancellation.ProveCall`.
- Rsa.Check: ends before the witness is built; the witness and the circuit of the RSA statement are library code.
- Sha256Hash.Pad: above 2^61 bytes it encodes the wrapped bit length the code computes; the standard defines no digest there. Below, it is the standard's padding (`Sha256Hash.BitLengthIsExact`).
- Sessions.SwiftExpand: requires a count that leaves room for one digest below 2^63, because the source traps on the sum otherwise; negative counts trap in both languages and are not modelled.
- Keychain, Keystore and Secure Enclave signing, foreign-function bindings, the app screens, benchmarks, reports, the build tool and the crate template: no part of the logic above.
