# Merkle tree program for Solana, modelled in Dafny

The program commits a list of byte-string leaves to a Merkle root. It keeps the root
and the leaf digests in one account. It also answers two requests against that
commitment: "build a proof for leaf i" and "check this leaf and proof against the
stored root". This project models the program's core:

- the root builder. It combines pairs of nodes left to right and pairs an unpaired
  last node with itself.
- the fixed-offset byte layout of the stored record. The layout is an initialisation
  flag, then a 32-byte root, then the 32-byte leaf digests.
- the tag-byte instruction decoder.
- the three instruction handlers and the dispatcher, seen together as a write-once
  state machine over the account.

Each piece of code that works step by step is an imperative method. Each such method
is proved equal to a specification function:

- `build_merkle_root` and its inner `chunks(2)` loop;
- `pack_into_slice`, which writes into an `array<byte>`;
- `unpack_from_slice`;
- the two loops of `MerkleInstruction::unpack` (tag-0 records and tag-2 hashes).

The account is a class. Its buffer is an array that `process_build_tree` overwrites in
place. The properties are stated about the specification functions.

SHA-256 is a parameter `hash` of type `Utils.Hasher`. It is any function from bytes to
32-byte digests, so every result below holds whatever hash function is used.

`build_proof` and `recompute_merkle_root_from_proof` are imported from `crate::utils`,
but the bodies are not in `src/utils.rs`. Both are parameters too:

- `BuildProofHandler.ProofBuilder` is a partial function defined at least on in-range
  indices. Dafny checks every call against that domain, so the handler's own call is
  proved to be in range.
- `VerifyProofHandler.RootRecomputer` is a total function.

Modules (one per file):

- `Wrappers`: Option.
- `Bytes`: bytes, digests, little-endian u32.
- `Errors`: errors.rs.
- `Utils`: utils.rs.
- `State`: state.rs.
- `Instruction`: the decoder in instructions/mod.rs.
- `BuildTreeHandler`, `BuildProofHandler`, `VerifyProofHandler`: the three handlers.
- `Processor`: `process_instruction`.

Two facts about the code shape the model:

- `build_proof` and `recompute_merkle_root_from_proof` are imported from `crate::utils`
  (src/instructions/build_proof.rs:10, src/instructions/verify_proof.rs:12), but
  src/utils.rs has no bodies for them. So neither a proof generator nor a sorted-pair
  verifier is modelled.
- With the declared account size of 1024 bytes, the record never unpacks, because
  1024 − 33 = 30·32 + 31. The model keeps this behaviour and proves it
  (`State.FullSizeBufferNeverUnpacks`, `Processor.FullSizeAccountRejectsAll`).
  For that reason, the end-to-end lemmas use buffers of exactly 33 + 32·k bytes.

## Model

| member | source | states |
|---|---|---|
| Errors.ToProgramError | src/errors.rs:28-32 | a custom error becomes `Custom(code)` with its declaration index 0..4 as the code |
| Errors.ToProgramErrorInjective | src/errors.rs:6-32 | distinct custom errors map to distinct program errors |
| Bytes.FromLeBytes | src/instructions/mod.rs:57-60 | `u32::from_le_bytes`: byte 0 is the value mod 256 and byte 3 is the value divided by 2^24 |
| Bytes.FromToLeBytes | src/instructions/mod.rs:57-60 | encoding a u32 as four little-endian bytes and decoding it gives the number back |
| Bytes.ToFromLeBytes | src/instructions/mod.rs:54-60 | every 4-byte payload is the little-endian encoding of the index it decodes to |
| Bytes.SplitDigestsSpec | src/state.rs:86-102 | splitting bytes into digests succeeds iff the length is a multiple of 32; there are length/32 digests, and digest k is bytes [32k, 32k+32) |
| Bytes.SplitFlatten | src/state.rs:56-102 | splitting the concatenation of digests gives the same digests back |
| Bytes.FlattenSplit | src/state.rs:86-102 | when splitting succeeds, concatenating the pieces gives the input back |
| Bytes.FlattenAt | src/state.rs:56-68 | digest k of a concatenation sits at bytes [32k, 32k+32) |
| Utils.HashLeaf | src/utils.rs:8-10 | `hash_leaf` is the hash parameter applied to the leaf bytes, a 32-byte digest |
| Utils.HashTwoHashes | src/utils.rs:13-17 | `hash_two_hashes` is the hash of the 64 bytes left ‖ right, that is `HashLeaf` of `CombineInput(left, right)` |
| Utils.CombineInput | src/utils.rs:13-17 | the buffer `hash_two_hashes` hashes is 64 bytes: the left digest first, then the right one |
| Utils.CombineIsOrdered | src/utils.rs:13-17 | swapping two different digests changes the hashed input, so combining is positional |
| Utils.NextLevel | src/utils.rs:28-33 | one pass maps a level of n nodes to ⌈n/2⌉ nodes |
| Utils.NextLevelAt | src/utils.rs:29-32 | node j of the next level combines nodes 2j and 2j+1, or the unpaired last node with itself |
| Utils.ReduceLevel | src/utils.rs:28-34 | the `chunks(2)` loop produces exactly the next level |
| Utils.BuildMerkleRoot | src/utils.rs:21-38 | no leaves gives `EmptyTree`; otherwise the loop terminates with the recursive root of the leaves; the leaves are taken by value |
| Utils.SingleLeafRoot | src/utils.rs:26-27 | a single leaf is its own root (the loop body never runs) |
| Utils.TwoLeafRoot | src/utils.rs:29-32 | two leaves give `combine(a, b)` |
| Utils.ThreeLeafRoot | src/utils.rs:29-32 | three leaves give `combine(combine(a, b), combine(c, c))` |
| Utils.FourLeafRoot | src/utils.rs:29-32 | four leaves give `combine(combine(a, b), combine(c, d))` |
| Utils.NextLevelAppend | src/utils.rs:29-33 | a pass over an even-length prefix followed by a suffix reduces each part separately |
| Utils.FullTreeRoot | src/utils.rs:21-38 | for 2^k + 2^k leaves, the root combines the roots of the two halves |
| State.StoredLeafCount | src/state.rs:56-68 | the number of leaves `pack_into_slice` writes fits the buffer and is maximal |
| State.CopyFromSlice | src/state.rs:53 | `copy_from_slice` overwrites exactly the target range |
| State.PackIntoSlice | src/state.rs:47-69 | the buffer becomes the flag, the root, the leaves that fit, and the old bytes after them |
| State.PackLeaves | src/state.rs:55-68 | the leaf loop writes leaf k at 33+32k and stops at the first leaf that does not fit |
| State.UnpackFromSlice | src/state.rs:71-109 | `unpack_from_slice` returns exactly what the layout specification gives |
| State.PackedLayout | src/state.rs:47-69 | flag byte 1 or 0; root in [1, 33); leaf k in [33+32k, 65+32k) when it fits; leaves that do not fit are dropped; at most 30 fit in 1024 bytes; later bytes are unchanged |
| State.UnpackedSpec | src/state.rs:71-109 | unpacking succeeds iff the buffer has at least 33 bytes and a whole number of 32-byte chunks after them; errors are `InvalidAccountData`; the flag is `src[0] != 0`; the leaf count is (len−33)/32 |
| State.FullSizeBufferNeverUnpacks | src/state.rs:8 | a buffer of the declared 1024 bytes never unpacks |
| State.UnpackPacked | src/state.rs:47-109 | packing then unpacking gives the flag, the root and the stored leaves, followed by the old chunks; the count depends only on the buffer size |
| State.PackUnpackRoundTrip | src/state.rs:47-109 | in a buffer of 33 + 32k bytes, packing a record with k leaves and unpacking it gives the record back |
| Instruction.UnpackRecords | src/instructions/mod.rs:39-49 | the tag-0 loop parses exactly the length-prefixed records and fails on an overrun |
| Instruction.UnpackHashes | src/instructions/mod.rs:75-86 | the tag-2 loop splits the rest into whole 32-byte hashes and fails on a short tail |
| Instruction.Unpack | src/instructions/mod.rs:31-92 | `MerkleInstruction::unpack` returns exactly what the decoder specification gives |
| Instruction.DecodeRejects | src/instructions/mod.rs:31-92 | empty input, an unknown tag, a tag-1 payload that is not 4 bytes, and a tag-2 payload without its leaf are all `InvalidInstructionData` |
| Instruction.ParseRecordsOverrun | src/instructions/mod.rs:41-49 | an empty payload gives no records; a record running past the end fails the whole payload |
| Instruction.VerifyProofShape | src/instructions/mod.rs:63-89 | tag 2 succeeds iff whole hashes follow the leaf; the leaf is the announced bytes; the proof has (rest−len)/32 hashes, in order |
| Instruction.ParseEncodedRecords | src/instructions/mod.rs:38-50 | records shorter than 256 bytes, each with its length byte in front, parse back to exactly those records |
| Instruction.ParsedRecordsShort | src/instructions/mod.rs:42-47 | every parsed record is shorter than 256 bytes |
| Instruction.DecodeEncode | src/instructions/mod.rs:31-92 | every encodable instruction decodes back to itself |
| Instruction.EncodeDecode | src/instructions/mod.rs:31-92 | every input that decodes is the encoding of its result, so the decoder is injective |
| Instruction.EncodeDecodeVerifyProof | src/instructions/mod.rs:63-89 | the tag-2 case of the previous row |
| BuildTreeHandler.HashLeaves | src/instructions/build_tree.rs:32 | the hashed leaves are `hash_leaf` of each input, in order, with the same count |
| BuildTreeHandler.Account.ProcessBuildTree | src/instructions/build_tree.rs:14-41 | the result and the new buffer are those of the handler's specification; on error nothing is written |
| BuildTreeHandler.BuildTreeGuards | src/instructions/build_tree.rs:22-33 | in order: wrong owner gives `IncorrectProgramId`, an unreadable buffer `InvalidAccountData`, an initialised record `AccountAlreadyInitialized`, and no leaves `EmptyTree` |
| BuildTreeHandler.BuildTreeCommits | src/instructions/build_tree.rs:32-39 | after success the buffer unpacks as initialised; the root is the Merkle root of the hashed leaves; the stored leaves start with the hashed leaves that fit; with one slot per leaf the stored leaves are the hashed leaves and the root is their root |
| BuildTreeHandler.BuildTreeWriteOnce | src/instructions/build_tree.rs:28-35 | a second build after a successful one fails with `AccountAlreadyInitialized` |
| BuildTreeHandler.BuildTreeOnFullSizeAccount | src/instructions/build_tree.rs:22-26 | on a 1024-byte account, a build fails with `IncorrectProgramId` or `InvalidAccountData` |
| BuildProofHandler.ProcessBuildProof | src/instructions/build_proof.rs:13-43 | wrong owner gives `IncorrectProgramId`; an unreadable buffer `InvalidAccountData`; an index at or past the leaf count `InvalidLeafIndex`; otherwise the builder's answer for the stored leaves, called only in range; the proof hashes are the logged lines, in order |
| VerifyProofHandler.ProcessVerifyProof | src/instructions/verify_proof.rs:16-44 | wrong owner gives `IncorrectProgramId`; an unreadable buffer `InvalidAccountData`; a recompute error propagates; Ok iff the recomputed root equals the stored root; a mismatch gives `InvalidProof` |
| Processor.Process | src/instructions/mod.rs:95-111 | a decode error is returned unchanged; failures write nothing and log no `Proof:` lines; only BuildTree can change the buffer; only BuildProof logs `Proof:` lines |
| Processor.ProcessInstruction | src/instructions/mod.rs:95-111 | `process_instruction` on the account object returns, logs and writes what `Process` gives |
| Processor.InitializedIsFrozen | src/instructions/build_tree.rs:28-30 | no instruction changes an initialised account's buffer |
| Processor.OnlyBuildTreeInitializes | src/instructions/mod.rs:100-110 | an uninitialised account becomes initialised only through a successful BuildTree with at least one leaf by its owner program |
| Processor.FullSizeAccountRejectsAll | src/state.rs:8 | with the declared 1024-byte account, every decoded instruction fails with `IncorrectProgramId` or `InvalidAccountData` and changes nothing |
| Processor.BuildThenProve | src/instructions/build_proof.rs:27-35 | after a build into one slot per leaf, BuildProof answers with the builder's proof for the hashed leaves when the index is in range, and with `InvalidLeafIndex` when it is not |
| Processor.BuildThenVerify | src/instructions/verify_proof.rs:34-43 | after a build into one slot per leaf, VerifyProof accepts exactly when the recomputed root equals the Merkle root of the hashed leaves |

## Left out

- SHA-256 (FIPS 180-4) is not modelled. It is the parameter `hash`. Its output is 32 bytes by the `Digest` type. Collision resistance is not assumed, so no lemma depends on it.
- The bodies of `build_proof` and `recompute_merkle_root_from_proof` are not part of this model, because they are not in `src/utils.rs`. They are parameters. Properties that relate a proof to the tree, or the sorted-pair verification rule, are therefore not stated.
- The `Pack` trait's provided `pack` and `unpack` wrappers come from the Solana runtime library and are not part of this model. So are their length check against `LEN` and their initialisation check. The handlers call `unpack_from_slice` and `pack_into_slice` directly. With that length check, every account would have to be 1024 bytes, and then `Processor.FullSizeAccountRejectsAll` applies. The initialisation check rejects a record whose flag byte is 0, so `process_build_tree` (src/instructions/build_tree.rs:26) could not reach its success path on an uninitialised account either. The model's transition from uninitialised to initialised exists only because that check is left out.
- Account plumbing is left out: `AccountInfo`, `next_account_info` (an empty account list), and the borrow checks of `try_borrow_data` / `try_borrow_mut_data`. The account is an owner and a data buffer.
- `msg!` text is left out, except the `Proof:` lines, which are returned as the logged hashes.
- usize overflow of `offset + length` in the decoder and the layout code is left out. Integers are unbounded, so no offset wraps.
- The test client (RPC, signing, polling) is left out. It is network I/O.
- `MerkleTreeError::InvalidInstructionData` is declared but never returned, because the decoder returns `ProgramError::InvalidInstructionData`.
