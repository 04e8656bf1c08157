/**
 * `process_instruction`: decode the instruction bytes, then hand the account to the
 * handler the instruction names.
 *
 * An outcome is the program's result, the hashes it logs as `Proof:` lines, and the
 * account buffer afterwards.
 */
module Processor {
  import opened Bytes
  import opened Errors
  import opened Utils
  import opened State
  import opened Instruction
  import opened BuildTreeHandler
  import opened BuildProofHandler
  import opened VerifyProofHandler

  datatype Outcome = Outcome(result: Result<()>, logged: seq<Digest>, data: seq<byte>)

  /** What `process_instruction` does to an account owned by `owner` whose buffer holds `data`. */
  function Process(programId: Pubkey, owner: Pubkey, data: seq<byte>, input: seq<byte>,
                   hash: Hasher, buildProof: ProofBuilder, recompute: RootRecomputer): (o: Outcome)
    requires InRangeBuilder(buildProof)
    ensures Decode(input).Err? ==> o == Outcome(Err(Decode(input).error), [], data)
    ensures o.result.Err? ==> o.logged == [] && o.data == data
    ensures !(Decode(input).Ok? && Decode(input).value.BuildTree?) ==> o.data == data
    ensures o.logged != [] ==> Decode(input).Ok? && Decode(input).value.BuildProof?
    ensures |o.data| == |data|
  {
    match Decode(input)
    case Err(e) => Outcome(Err(e), [], data)
    case Ok(ins) =>
      match ins
      case BuildTree(leaves) =>
        (match BuildTreeResult(programId, owner, data, leaves, hash)
         case Err(e) => Outcome(Err(e), [], data)
         case Ok(newData) => Outcome(Ok(()), [], newData))
      case BuildProof(leafIndex) =>
        (match ProcessBuildProof(programId, owner, data, leafIndex, buildProof)
         case Err(e) => Outcome(Err(e), [], data)
         case Ok(proof) => Outcome(Ok(()), proof, data))
      case VerifyProof(leafData, proof) =>
        Outcome(ProcessVerifyProof(programId, owner, data, leafData, proof, recompute), [], data)
  }

  /** `process_instruction` on the account object: only a BuildTree can write its buffer. */
  method ProcessInstruction(programId: Pubkey, account: Account, input: seq<byte>, hash: Hasher,
                            buildProof: ProofBuilder, recompute: RootRecomputer)
    returns (r: Result<()>, logged: seq<Digest>)
    requires InRangeBuilder(buildProof)
    modifies account.data
    ensures var o := Process(programId, account.owner, old(account.data[..]), input, hash, buildProof, recompute);
      r == o.result && logged == o.logged && account.data[..] == o.data
  {
    logged := [];
    var instruction := Unpack(input);
    if instruction.Err? {
      return Err(instruction.error), [];
    }
    match instruction.value
    case BuildTree(leaves) =>
      r := account.ProcessBuildTree(programId, leaves, hash);
    case BuildProof(leafIndex) =>
      var proof := ProcessBuildProof(programId, account.owner, account.data[..], leafIndex, buildProof);
      if proof.Err? {
        r := Err(proof.error);
      } else {
        r, logged := Ok(()), proof.value;
      }
    case VerifyProof(leafData, proof) =>
      r := ProcessVerifyProof(programId, account.owner, account.data[..], leafData, proof, recompute);
  }

  // ---------------------------------------------------------------------------
  // The account as a state machine
  // ---------------------------------------------------------------------------

  /** An initialised record is frozen: no instruction changes its buffer. */
  lemma InitializedIsFrozen(programId: Pubkey, owner: Pubkey, data: seq<byte>, input: seq<byte>,
                            hash: Hasher, buildProof: ProofBuilder, recompute: RootRecomputer)
    requires InRangeBuilder(buildProof)
    requires Unpacked(data).Ok? && Unpacked(data).value.isInitialized
    ensures Process(programId, owner, data, input, hash, buildProof, recompute).data == data
    ensures Decode(input).Ok? && Decode(input).value.BuildTree? ==>
              Process(programId, owner, data, input, hash, buildProof, recompute).result
                == if owner == programId then Err(ToProgramError(AccountAlreadyInitialized)) else Err(IncorrectProgramId)
  {
    if Decode(input).Ok? && Decode(input).value.BuildTree? {
      BuildTreeGuards(programId, owner, data, Decode(input).value.data, hash);
    }
  }

  /**
   * Initialisation happens only through a successful BuildTree, by the program that
   * owns the account, with at least one leaf.
   */
  lemma OnlyBuildTreeInitializes(programId: Pubkey, owner: Pubkey, data: seq<byte>, input: seq<byte>,
                                 hash: Hasher, buildProof: ProofBuilder, recompute: RootRecomputer)
    requires InRangeBuilder(buildProof)
    requires Unpacked(data).Ok? && !Unpacked(data).value.isInitialized
    requires var after := Process(programId, owner, data, input, hash, buildProof, recompute).data;
      Unpacked(after).Ok? && Unpacked(after).value.isInitialized
    ensures owner == programId
    ensures Decode(input).Ok? && Decode(input).value.BuildTree? && Decode(input).value.data != []
    ensures Process(programId, owner, data, input, hash, buildProof, recompute).result == Ok(())
  {
    var o := Process(programId, owner, data, input, hash, buildProof, recompute);
    assert o.data != data;
    var leaves := Decode(input).value.data;
    BuildTreeGuards(programId, owner, data, leaves, hash);
  }

  /**
   * With the account's declared size of 1024 bytes every instruction that decodes
   * fails: the buffer never unpacks, so the owner check is the only other outcome.
   */
  lemma FullSizeAccountRejectsAll(programId: Pubkey, owner: Pubkey, data: seq<byte>, input: seq<byte>,
                                  hash: Hasher, buildProof: ProofBuilder, recompute: RootRecomputer)
    requires InRangeBuilder(buildProof)
    requires |data| == LEN && Decode(input).Ok?
    ensures Process(programId, owner, data, input, hash, buildProof, recompute)
         == Outcome(if owner == programId then Err(InvalidAccountData) else Err(IncorrectProgramId), [], data)
  {
    FullSizeBufferNeverUnpacks(data);
  }

  /**
   * End to end on an uninitialised buffer with one slot per leaf: after BuildTree,
   * BuildProof answers for exactly the indices of the leaves, with what the proof
   * builder gives for the hashed leaves, and writes nothing.
   */
  lemma BuildThenProve(programId: Pubkey, data: seq<byte>, leaves: seq<seq<byte>>, leafIndex: u32,
                       hash: Hasher, buildProof: ProofBuilder, recompute: RootRecomputer)
    requires InRangeBuilder(buildProof)
    requires Encodable(BuildTree(leaves)) && leaves != []
    requires Unpacked(data).Ok? && !Unpacked(data).value.isInitialized
    requires |data| == ROOT_END + HASH_SIZE * |leaves|
    ensures var built := Process(programId, programId, data, Encode(BuildTree(leaves)), hash, buildProof, recompute);
      var proved := Process(programId, programId, built.data, Encode(BuildProof(leafIndex)), hash, buildProof, recompute);
      && built.result == Ok(())
      && (leafIndex >= |leaves| ==> proved == Outcome(Err(ToProgramError(InvalidLeafIndex)), [], built.data))
      && (leafIndex < |leaves| ==>
            proved == match buildProof(leafIndex, HashLeaves(hash, leaves))
                      case Ok(proof) => Outcome(Ok(()), proof, built.data)
                      case Err(e) => Outcome(Err(e), [], built.data))
  {
    DecodeEncode(BuildTree(leaves));
    DecodeEncode(BuildProof(leafIndex));
    BuildTreeGuards(programId, programId, data, leaves, hash);
    BuildTreeCommits(programId, programId, data, leaves, hash);
  }

  /**
   * End to end on an uninitialised buffer with one slot per leaf: after BuildTree,
   * VerifyProof accepts a leaf and a proof exactly when they recompute the Merkle root
   * of the hashed leaves.
   */
  lemma BuildThenVerify(programId: Pubkey, data: seq<byte>, leaves: seq<seq<byte>>,
                        leafData: seq<byte>, proof: seq<Digest>,
                        hash: Hasher, buildProof: ProofBuilder, recompute: RootRecomputer)
    requires InRangeBuilder(buildProof)
    requires Encodable(BuildTree(leaves)) && leaves != [] && |leafData| < 0x100
    requires Unpacked(data).Ok? && !Unpacked(data).value.isInitialized
    requires |data| == ROOT_END + HASH_SIZE * |leaves|
    ensures var built := Process(programId, programId, data, Encode(BuildTree(leaves)), hash, buildProof, recompute);
      var verified := Process(programId, programId, built.data, Encode(VerifyProof(leafData, proof)), hash, buildProof, recompute);
      && built.result == Ok(())
      && verified.data == built.data
      && (verified.result == Ok(()) <==> recompute(leafData, proof) == Ok(MerkleRoot(hash, HashLeaves(hash, leaves))))
  {
    DecodeEncode(BuildTree(leaves));
    DecodeEncode(VerifyProof(leafData, proof));
    BuildTreeGuards(programId, programId, data, leaves, hash);
    BuildTreeCommits(programId, programId, data, leaves, hash);
  }
}
