/**
 * `process_verify_proof`: recompute a root from a leaf and a proof and compare it
 * with the stored root.
 *
 * The recomputation `recompute_merkle_root_from_proof` is not part of this model; it
 * is a parameter, any function from a leaf and a proof to a digest or an error.
 */
module VerifyProofHandler {
  import opened Bytes
  import opened Errors
  import opened State

  /** `utils::recompute_merkle_root_from_proof(leaf_data, proof)`. */
  type RootRecomputer = (seq<byte>, seq<Digest>) -> Result<Digest>

  /** `process_verify_proof` on an account owned by `owner` whose buffer holds `data`. */
  function ProcessVerifyProof(programId: Pubkey, owner: Pubkey, data: seq<byte>,
                              leafData: seq<byte>, proof: seq<Digest>,
                              recompute: RootRecomputer): (r: Result<()>)
    ensures owner != programId ==> r == Err(IncorrectProgramId)
    ensures owner == programId && Unpacked(data).Err? ==> r == Err(InvalidAccountData)
    ensures r.Ok? <==> owner == programId && Unpacked(data).Ok?
                       && recompute(leafData, proof) == Ok(Unpacked(data).value.root)
    ensures owner == programId && Unpacked(data).Ok? && recompute(leafData, proof).Err? ==>
              r == Err(recompute(leafData, proof).error)
    ensures owner == programId && Unpacked(data).Ok? && recompute(leafData, proof).Ok?
            && recompute(leafData, proof).value != Unpacked(data).value.root ==>
              r == Err(ToProgramError(InvalidProof))
  {
    UnpackedSpec(data);
    if owner != programId then Err(IncorrectProgramId)
    else match Unpacked(data)
      case Err(e) => Err(e)
      case Ok(treeAccount) =>
        match recompute(leafData, proof)
        case Err(e) => Err(e)
        case Ok(recomputedRoot) =>
          if recomputedRoot == treeAccount.root then Ok(())
          else Err(ToProgramError(InvalidProof))
  }
}
