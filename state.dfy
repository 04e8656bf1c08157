/**
 * The persistent record `MerkleTreeAccount` and its fixed-offset byte layout:
 * byte 0 the initialisation flag, bytes [1, 33) the root, then the leaf digests
 * packed back to back.
 */
module State {
  import opened Wrappers
  import opened Bytes
  import opened Errors

  /** Total size allocated for the account. */
  const MERKLE_TREE_ACCOUNT_LEN: nat := 1024
  /** `Pack::LEN`. */
  const LEN: nat := MERKLE_TREE_ACCOUNT_LEN
  const IS_INITIALIZED_SIZE: nat := 1
  const ROOT_START: nat := IS_INITIALIZED_SIZE
  const ROOT_END: nat := ROOT_START + HASH_SIZE

  datatype MerkleTreeAccount = MerkleTreeAccount(isInitialized: bool, root: Digest, leaves: seq<Digest>)
  {
    /** `IsInitialized::is_initialized`. */
    predicate IsInitialized() { isInitialized }
  }

  /** `is_initialized as u8`. */
  function FlagByte(b: bool): byte
  {
    if b then 1 else 0
  }

  /** How many of `leafCount` leaves fit behind the root in a buffer of `dstLen` bytes. */
  function StoredLeafCount(dstLen: nat, leafCount: nat): (n: nat)
    requires dstLen >= ROOT_END
    ensures n <= leafCount && ROOT_END + HASH_SIZE * n <= dstLen
    ensures n == leafCount || dstLen < ROOT_END + HASH_SIZE * (n + 1)
  {
    var room := (dstLen - ROOT_END) / HASH_SIZE;
    if leafCount <= room then leafCount else room
  }

  /**
   * The buffer `pack_into_slice` leaves behind in `dst`: flag, root, the leaves that
   * fit, and the old bytes of `dst` after the last leaf written.
   */
  function Packed(dst: seq<byte>, a: MerkleTreeAccount): (r: seq<byte>)
    requires |dst| >= ROOT_END
    ensures |r| == |dst|
  {
    var n := StoredLeafCount(|dst|, |a.leaves|);
    [FlagByte(a.isInitialized)] + a.root + Flatten(a.leaves[..n]) + dst[ROOT_END + HASH_SIZE * n..]
  }

  /** What `unpack_from_slice` returns for `src`. */
  function Unpacked(src: seq<byte>): Result<MerkleTreeAccount>
  {
    if |src| < ROOT_END then Err(InvalidAccountData)
    else match SplitDigests(src[ROOT_END..])
      case None => Err(InvalidAccountData)
      case Some(leaves) => Ok(MerkleTreeAccount(src[0] != 0, src[ROOT_START..ROOT_END], leaves))
  }

  // ---------------------------------------------------------------------------
  // The imperative serialiser and parser
  // ---------------------------------------------------------------------------

  /** `copy_from_slice` into `dst[start .. start + |src|)`. */
  method CopyFromSlice(dst: array<byte>, start: nat, src: seq<byte>)
    requires start + |src| <= dst.Length
    modifies dst
    ensures dst[..] == old(dst[..start]) + src + old(dst[start + |src|..])
  {
    var i := 0;
    while i < |src|
      invariant i <= |src|
      invariant forall k :: 0 <= k < dst.Length ==>
                  dst[k] == if start <= k < start + i then src[k - start] else old(dst[k])
    {
      dst[start + i] := src[i];
      i := i + 1;
    }
    assert dst[..] == old(dst[..start]) + src + old(dst[start + |src|..]);
  }

  /** Overwriting the bytes right after a written prefix extends the prefix and keeps the rest. */
  lemma OverwriteAfter(current: seq<byte>, written: seq<byte>, original: seq<byte>, piece: seq<byte>)
    requires |written| + |piece| <= |original|
    requires current == written + original[|written|..]
    ensures current[..|written|] + piece + current[|written| + |piece|..]
         == (written + piece) + original[|written| + |piece|..]
  {
    assert current[..|written|] == written;
    assert current[|written| + |piece|..] == original[|written| + |piece|..];
  }

  /** `pack_into_slice`: overwrites `dst` in place. */
  method PackIntoSlice(a: MerkleTreeAccount, dst: array<byte>)
    requires dst.Length >= ROOT_END
    modifies dst
    ensures dst[..] == Packed(old(dst[..]), a)
  {
    ghost var original := dst[..];
    // 1) the initialisation flag, 2) the root
    dst[0] := FlagByte(a.isInitialized);
    CopyFromSlice(dst, ROOT_START, a.root);
    assert dst[..ROOT_END] == [FlagByte(a.isInitialized)] + a.root;
    assert dst[ROOT_END..] == original[ROOT_END..];
    // 3) the leaves that fit
    PackLeaves(a.leaves, dst);
  }

  /** Step 3 of `pack_into_slice`: leaf k at offset 33 + 32k, stopping at the first leaf that does not fit. */
  method PackLeaves(leaves: seq<Digest>, dst: array<byte>)
    requires dst.Length >= ROOT_END
    modifies dst
    ensures var n := StoredLeafCount(dst.Length, |leaves|);
      dst[..] == old(dst[..ROOT_END]) + Flatten(leaves[..n]) + old(dst[ROOT_END + HASH_SIZE * n..])
  {
    ghost var original := dst[..];
    ghost var written := original[..ROOT_END];
    var offset := ROOT_END;
    var i := 0;
    assert original == written + original[offset..];
    while i < |leaves|
      invariant i <= |leaves|
      invariant offset == ROOT_END + HASH_SIZE * i <= dst.Length
      invariant written == original[..ROOT_END] + Flatten(leaves[..i]) && |written| == offset
      invariant dst[..] == written + original[offset..]
    {
      var leafEnd := offset + HASH_SIZE;
      if leafEnd > dst.Length {
        break;
      }
      OverwriteAfter(dst[..], written, original, leaves[i]);
      CopyFromSlice(dst, offset, leaves[i]);
      FlattenAppend(leaves[..i], leaves[i]);
      assert leaves[..i + 1] == leaves[..i] + [leaves[i]];
      written := written + leaves[i];
      offset := offset + HASH_SIZE;
      i := i + 1;
    }
    StoppedAtStoredLeafCount(dst.Length, |leaves|, i);
  }

  /** The leaf loop stops after exactly `StoredLeafCount` leaves. */
  lemma StoppedAtStoredLeafCount(dstLen: nat, leafCount: nat, i: nat)
    requires i <= leafCount && ROOT_END + HASH_SIZE * i <= dstLen
    requires i == leafCount || dstLen < ROOT_END + HASH_SIZE * i + HASH_SIZE
    ensures i == StoredLeafCount(dstLen, leafCount)
  {
  }

  /** `unpack_from_slice`. */
  method UnpackFromSlice(src: seq<byte>) returns (r: Result<MerkleTreeAccount>)
    ensures r == Unpacked(src)
  {
    if |src| < 1 {
      return Err(InvalidAccountData);
    }
    var isInitialized := src[0] != 0;
    if |src| < ROOT_END {
      return Err(InvalidAccountData);
    }
    var root: Digest := src[ROOT_START..ROOT_END];
    var leaves: seq<Digest> := [];
    var offset := ROOT_END;
    PrependNil(SplitDigests(src[ROOT_END..]));
    while offset < |src|
      invariant ROOT_END <= offset <= |src|
      invariant SplitDigests(src[ROOT_END..]) == Prepend(leaves, SplitDigests(src[offset..]))
      decreases |src| - offset
    {
      var leafEnd := offset + HASH_SIZE;
      if leafEnd > |src| {
        return Err(InvalidAccountData);
      }
      var leaf: Digest := src[offset..leafEnd];
      assert src[offset..][..HASH_SIZE] == leaf && src[offset..][HASH_SIZE..] == src[leafEnd..];
      PrependPrepend(leaves, [leaf], SplitDigests(src[leafEnd..]));
      leaves := leaves + [leaf];
      offset := leafEnd;
    }
    assert src[offset..] == [];
    assert leaves + [] == leaves;
    return Ok(MerkleTreeAccount(isInitialized, root, leaves));
  }

  // ---------------------------------------------------------------------------
  // Properties of the layout
  // ---------------------------------------------------------------------------

  /**
   * Where `pack_into_slice` puts each field: the flag at byte 0, the root in [1, 33),
   * leaf k in [33 + 32k, 65 + 32k) for each leaf that fits, the leaves that do not fit
   * dropped (at most 30 in a `LEN`-byte buffer), and every later byte untouched.
   */
  lemma PackedLayout(dst: seq<byte>, a: MerkleTreeAccount)
    requires |dst| >= ROOT_END
    ensures var r, n := Packed(dst, a), StoredLeafCount(|dst|, |a.leaves|);
      && r[0] == FlagByte(a.isInitialized)
      && r[ROOT_START..ROOT_END] == a.root
      && (forall k :: 0 <= k < n ==>
            r[ROOT_END + HASH_SIZE * k .. ROOT_END + HASH_SIZE * k + HASH_SIZE] == a.leaves[k])
      && r[ROOT_END + HASH_SIZE * n..] == dst[ROOT_END + HASH_SIZE * n..]
      && (n < |a.leaves| ==> |dst| < ROOT_END + HASH_SIZE * (n + 1))
      && (|dst| == LEN ==> n <= 30)
  {
    var r, n := Packed(dst, a), StoredLeafCount(|dst|, |a.leaves|);
    var body := Flatten(a.leaves[..n]);
    assert r == [FlagByte(a.isInitialized)] + a.root + body + dst[ROOT_END + HASH_SIZE * n..];
    assert r[ROOT_END..ROOT_END + HASH_SIZE * n] == body;
    forall k | 0 <= k < n
      ensures r[ROOT_END + HASH_SIZE * k .. ROOT_END + HASH_SIZE * k + HASH_SIZE] == a.leaves[k]
    {
      FlattenAt(a.leaves[..n], k);
      assert r[ROOT_END + HASH_SIZE * k .. ROOT_END + HASH_SIZE * k + HASH_SIZE]
          == body[HASH_SIZE * k .. HASH_SIZE * k + HASH_SIZE];
    }
  }

  /**
   * `unpack_from_slice` succeeds exactly when the buffer holds the flag, the root and a
   * whole number of 32-byte chunks; it then reads the flag as "byte 0 is non-zero",
   * the root from [1, 33), and one leaf per chunk, (|src| - 33) / 32 of them.
   */
  lemma UnpackedSpec(src: seq<byte>)
    ensures Unpacked(src).Ok? <==> |src| >= ROOT_END && (|src| - ROOT_END) % HASH_SIZE == 0
    ensures Unpacked(src).Err? ==> Unpacked(src).error == InvalidAccountData
    ensures Unpacked(src).Ok? ==>
      var a := Unpacked(src).value;
      && (a.isInitialized <==> src[0] != 0)
      && a.root == src[ROOT_START..ROOT_END]
      && |a.leaves| == (|src| - ROOT_END) / HASH_SIZE
      && forall k :: 0 <= k < |a.leaves| ==>
           a.leaves[k] == src[ROOT_END + HASH_SIZE * k .. ROOT_END + HASH_SIZE * k + HASH_SIZE]
  {
    if |src| >= ROOT_END {
      var body := src[ROOT_END..];
      SplitDigestsSpec(body);
      if SplitDigests(body).Some? {
        forall k | 0 <= k < |body| / HASH_SIZE
          ensures body[HASH_SIZE * k .. HASH_SIZE * k + HASH_SIZE]
               == src[ROOT_END + HASH_SIZE * k .. ROOT_END + HASH_SIZE * k + HASH_SIZE]
        {
        }
      }
    }
  }

  /**
   * A buffer of the account's full size never unpacks: 1024 - 33 = 991 = 30 * 32 + 31,
   * so the last chunk is always one byte short.
   */
  lemma FullSizeBufferNeverUnpacks(src: seq<byte>)
    requires |src| == LEN
    ensures Unpacked(src) == Err(InvalidAccountData)
  {
    UnpackedSpec(src);
  }

  /**
   * Packing into a buffer that unpacks, then unpacking, gives back the flag, the root,
   * the leaves that fit, and then whatever whole chunks the buffer already held: the
   * number of leaves read depends on the buffer's size only.
   */
  lemma {:induction false} UnpackPacked(dst: seq<byte>, a: MerkleTreeAccount)
    requires |dst| >= ROOT_END && (|dst| - ROOT_END) % HASH_SIZE == 0
    ensures var n := StoredLeafCount(|dst|, |a.leaves|);
      var rest := dst[ROOT_END + HASH_SIZE * n..];
      && SplitDigests(rest).Some?
      && Unpacked(Packed(dst, a))
         == Ok(MerkleTreeAccount(a.isInitialized, a.root, a.leaves[..n] + SplitDigests(rest).value))
      && |Unpacked(Packed(dst, a)).value.leaves| == (|dst| - ROOT_END) / HASH_SIZE
  {
    var n := StoredLeafCount(|dst|, |a.leaves|);
    var rest := dst[ROOT_END + HASH_SIZE * n..];
    var r := Packed(dst, a);
    SplitDigestsSpec(rest);
    assert |rest| == |dst| - ROOT_END - HASH_SIZE * n;
    assert |rest| % HASH_SIZE == 0;
    var tail := SplitDigests(rest).value;
    var body := Flatten(a.leaves[..n]) + rest;
    assert r == [FlagByte(a.isInitialized)] + a.root + body;
    assert r[ROOT_END..] == body;
    SplitAppend(a.leaves[..n], rest);
    assert r[0] != 0 <==> a.isInitialized;
    assert r[ROOT_START..ROOT_END] == a.root;
    UnpackedSpec(r);
  }

  lemma {:induction false} SplitAppend(ds: seq<Digest>, rest: seq<byte>)
    requires SplitDigests(rest).Some?
    ensures SplitDigests(Flatten(ds) + rest) == Some(ds + SplitDigests(rest).value)
    decreases |ds|
  {
    if ds == [] {
      assert Flatten(ds) + rest == rest;
      assert ds + SplitDigests(rest).value == SplitDigests(rest).value;
    } else {
      var s := Flatten(ds) + rest;
      assert s[..HASH_SIZE] == ds[0];
      assert s[HASH_SIZE..] == Flatten(ds[1..]) + rest;
      SplitAppend(ds[1..], rest);
      assert [ds[0]] + (ds[1..] + SplitDigests(rest).value) == ds + SplitDigests(rest).value;
    }
  }

  /** Round trip: in a buffer of exactly 33 + 32k bytes, an account with k leaves packs and unpacks to itself. */
  lemma PackUnpackRoundTrip(dst: seq<byte>, a: MerkleTreeAccount)
    requires |dst| == ROOT_END + HASH_SIZE * |a.leaves|
    ensures Unpacked(Packed(dst, a)) == Ok(a)
  {
    UnpackPacked(dst, a);
    var n := StoredLeafCount(|dst|, |a.leaves|);
    assert n == |a.leaves|;
    assert a.leaves[..n] == a.leaves;
    assert dst[ROOT_END + HASH_SIZE * n..] == [];
    assert a.leaves[..n] + [] == a.leaves;
  }
}
