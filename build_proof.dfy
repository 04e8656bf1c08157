/**
 * `process_build_proof`: read-only guards around the proof builder.
 *
 * The proof builder `build_proof` is not part of this model; it is a parameter whose
 * domain is the in-range indices, so that every call the handler makes is checked to
 * be in range.
 */
module BuildProofHandler {
  import opened Bytes
  import opened Errors
  import opened State

  /** `utils::build_proof(leaf_index, leaves)`: defined at least for every `leaf_index < |leaves|`. */
  type ProofBuilder = (nat, seq<Digest>) --> Result<seq<Digest>>

  ghost predicate InRangeBuilder(buildProof: ProofBuilder)
  {
    forall i: nat, leaves: seq<Digest> :: i < |leaves| ==> buildProof.requires(i, leaves)
  }

  /**
   * `process_build_proof` on an account owned by `owner` whose buffer holds `data`.
   * On success the value is the proof, which the handler logs one hash per line, in order.
   */
  function ProcessBuildProof(programId: Pubkey, owner: Pubkey, data: seq<byte>,
                             leafIndex: u32, buildProof: ProofBuilder): (r: Result<seq<Digest>>)
    requires InRangeBuilder(buildProof)
    ensures owner != programId ==> r == Err(IncorrectProgramId)
    ensures owner == programId && Unpacked(data).Err? ==> r == Err(InvalidAccountData)
    ensures owner == programId && Unpacked(data).Ok? && leafIndex >= |Unpacked(data).value.leaves| ==>
              r == Err(ToProgramError(InvalidLeafIndex))
    ensures r.Ok? ==> owner == programId && Unpacked(data).Ok? && leafIndex < |Unpacked(data).value.leaves|
    ensures owner == programId && Unpacked(data).Ok? && leafIndex < |Unpacked(data).value.leaves| ==>
              r == buildProof(leafIndex, Unpacked(data).value.leaves)
  {
    UnpackedSpec(data);
    if owner != programId then Err(IncorrectProgramId)
    else match Unpacked(data)
      case Err(e) => Err(e)
      case Ok(treeAccount) =>
        if leafIndex >= |treeAccount.leaves| then Err(ToProgramError(InvalidLeafIndex))
        else buildProof(leafIndex, treeAccount.leaves)
  }
}
