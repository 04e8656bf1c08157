/**
 * The program's error vocabulary: its own `MerkleTreeError` enum, the runtime's
 * `ProgramError` it is converted into, and the result type every operation returns.
 */
module Errors {
  import opened Bytes

  /** The program's custom errors, in declaration order (their `as u32` codes are 0..4). */
  datatype MerkleTreeError =
    | AccountAlreadyInitialized
    | InvalidInstructionData   // never returned: the decoder returns ProgramError.InvalidInstructionData
    | EmptyTree
    | InvalidLeafIndex
    | InvalidProof

  /** The runtime errors the program can return. */
  datatype ProgramError =
    | Custom(code: u32)
    | IncorrectProgramId
    | InvalidAccountData
    | InvalidInstructionData

  /** `From<MerkleTreeError> for ProgramError`: `Custom(e as u32)`. */
  function ToProgramError(e: MerkleTreeError): (p: ProgramError)
    ensures p.Custom? && p.code < 5
  {
    Custom(
      if e.AccountAlreadyInitialized? then 0
      else if e.InvalidInstructionData? then 1
      else if e.EmptyTree? then 2
      else if e.InvalidLeafIndex? then 3
      else 4)
  }

  /** Distinct custom errors stay distinct once converted. */
  lemma ToProgramErrorInjective(e: MerkleTreeError, e': MerkleTreeError)
    requires e != e'
    ensures ToProgramError(e) != ToProgramError(e')
  {
  }

  datatype Result<+T> = Ok(value: T) | Err(error: ProgramError)
}
