/**
 * The account the program owns, and `process_build_tree`: the one transition that
 * takes the stored record from uninitialised to initialised.
 *
 * The account is its owner and its data buffer; the handler reads the record out of
 * the buffer with `unpack_from_slice` and writes it back with `pack_into_slice`.
 */
module BuildTreeHandler {
  import opened Wrappers
  import opened Bytes
  import opened Errors
  import opened Utils
  import opened State

  /** `data.iter().map(|d| hash_leaf(d)).collect()`. */
  function HashLeaves(hash: Hasher, data: seq<seq<byte>>): (hashed: seq<Digest>)
    ensures |hashed| == |data|
    ensures forall i :: 0 <= i < |data| ==> hashed[i] == HashLeaf(hash, data[i])
  {
    if data == [] then [] else [HashLeaf(hash, data[0])] + HashLeaves(hash, data[1..])
  }

  /**
   * The outcome of `process_build_tree` on an account owned by `owner` whose buffer
   * holds `data`: the error, or the buffer's new contents.
   */
  function BuildTreeResult(programId: Pubkey, owner: Pubkey, data: seq<byte>,
                           leaves: seq<seq<byte>>, hash: Hasher): Result<seq<byte>>
  {
    if owner != programId then Err(IncorrectProgramId)
    else match Unpacked(data)
      case Err(e) => Err(e)
      case Ok(treeData) =>
        if treeData.isInitialized then Err(ToProgramError(AccountAlreadyInitialized))
        else
          var hashedLeaves := HashLeaves(hash, leaves);
          if hashedLeaves == [] then Err(ToProgramError(EmptyTree))
          else
            var committed := treeData.(isInitialized := true,
                                       root := MerkleRoot(hash, hashedLeaves),
                                       leaves := hashedLeaves);
            Ok(Packed(data, committed))
  }

  class Account {
    const owner: Pubkey
    const data: array<byte>

    constructor (owner: Pubkey, data: array<byte>)
      ensures this.owner == owner && this.data == data
    {
      this.owner := owner;
      this.data := data;
    }

    /**
     * `process_build_tree`: on success the buffer holds the committed record; on
     * any failure nothing is written.
     */
    method ProcessBuildTree(programId: Pubkey, leaves: seq<seq<byte>>, hash: Hasher) returns (r: Result<()>)
      modifies data
      ensures var spec := BuildTreeResult(programId, owner, old(data[..]), leaves, hash);
        && (spec.Ok? ==> r == Ok(()) && data[..] == spec.value)
        && (spec.Err? ==> r == Err(spec.error) && data[..] == old(data[..]))
    {
      if owner != programId {
        return Err(IncorrectProgramId);
      }
      var unpacked := UnpackFromSlice(data[..]);
      if unpacked.Err? {
        return Err(unpacked.error);
      }
      var treeData := unpacked.value;
      if treeData.isInitialized {
        return Err(ToProgramError(AccountAlreadyInitialized));
      }
      var hashedLeaves := HashLeaves(hash, leaves);
      var root := BuildMerkleRoot(hash, hashedLeaves);
      if root.Err? {
        return Err(root.error);
      }
      treeData := treeData.(isInitialized := true, root := root.value, leaves := hashedLeaves);
      PackIntoSlice(treeData, data);
      return Ok(());
    }
  }

  // ---------------------------------------------------------------------------
  // Properties of the transition
  // ---------------------------------------------------------------------------

  /**
   * The guards, in order: a foreign owner, a buffer that does not unpack, an already
   * initialised record, no leaves. Each fails before anything is written.
   */
  lemma BuildTreeGuards(programId: Pubkey, owner: Pubkey, data: seq<byte>,
                        leaves: seq<seq<byte>>, hash: Hasher)
    ensures owner != programId ==> BuildTreeResult(programId, owner, data, leaves, hash) == Err(IncorrectProgramId)
    ensures owner == programId && Unpacked(data).Err? ==>
              BuildTreeResult(programId, owner, data, leaves, hash) == Err(InvalidAccountData)
    ensures owner == programId && Unpacked(data).Ok? && Unpacked(data).value.isInitialized ==>
              BuildTreeResult(programId, owner, data, leaves, hash) == Err(ToProgramError(AccountAlreadyInitialized))
    ensures owner == programId && Unpacked(data).Ok? && !Unpacked(data).value.isInitialized && leaves == [] ==>
              BuildTreeResult(programId, owner, data, leaves, hash) == Err(ToProgramError(EmptyTree))
  {
    UnpackedSpec(data);
  }

  /**
   * What a successful build leaves in the buffer: an initialised record whose root is
   * the Merkle root of the hashed leaves; the leaf slots hold the hashed leaves that
   * fit, in order, followed by the chunks the buffer held before. When the buffer has
   * exactly one slot per leaf, the stored leaves are the hashed leaves and the stored
   * root is their Merkle root.
   */
  lemma BuildTreeCommits(programId: Pubkey, owner: Pubkey, data: seq<byte>,
                         leaves: seq<seq<byte>>, hash: Hasher)
    requires BuildTreeResult(programId, owner, data, leaves, hash).Ok?
    ensures var newData := BuildTreeResult(programId, owner, data, leaves, hash).value;
      var hashed := HashLeaves(hash, leaves);
      var n := StoredLeafCount(|data|, |hashed|);
      && |newData| == |data|
      && hashed != []
      && Unpacked(newData).Ok?
      && Unpacked(newData).value.isInitialized
      && Unpacked(newData).value.root == MerkleRoot(hash, hashed)
      && |Unpacked(newData).value.leaves| == (|data| - ROOT_END) / HASH_SIZE
      && Unpacked(newData).value.leaves[..n] == hashed[..n]
      && (|data| == ROOT_END + HASH_SIZE * |leaves| ==>
            Unpacked(newData).value.leaves == hashed &&
            Unpacked(newData).value.root == MerkleRoot(hash, Unpacked(newData).value.leaves))
  {
    var hashed := HashLeaves(hash, leaves);
    var treeData := Unpacked(data).value;
    var committed := treeData.(isInitialized := true, root := MerkleRoot(hash, hashed), leaves := hashed);
    UnpackedSpec(data);
    UnpackPacked(data, committed);
    if |data| == ROOT_END + HASH_SIZE * |leaves| {
      PackUnpackRoundTrip(data, committed);
    }
  }

  /** The record is write-once: after a successful build, every further build fails and writes nothing. */
  lemma BuildTreeWriteOnce(programId: Pubkey, owner: Pubkey, data: seq<byte>,
                           leaves: seq<seq<byte>>, hash: Hasher, leaves': seq<seq<byte>>, hash': Hasher)
    requires BuildTreeResult(programId, owner, data, leaves, hash).Ok?
    ensures BuildTreeResult(programId, owner, BuildTreeResult(programId, owner, data, leaves, hash).value, leaves', hash')
         == Err(ToProgramError(AccountAlreadyInitialized))
  {
    BuildTreeCommits(programId, owner, data, leaves, hash);
  }

  /** With the account's declared size no build can succeed: the buffer never unpacks. */
  lemma BuildTreeOnFullSizeAccount(programId: Pubkey, owner: Pubkey, data: seq<byte>,
                                   leaves: seq<seq<byte>>, hash: Hasher)
    requires |data| == LEN
    ensures BuildTreeResult(programId, owner, data, leaves, hash)
         == if owner != programId then Err(IncorrectProgramId) else Err(InvalidAccountData)
  {
    FullSizeBufferNeverUnpacks(data);
  }
}
