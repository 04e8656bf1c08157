/**
 * Digest primitives and the Merkle root builder.
 *
 * The SHA-256 primitive is not modelled: it is a parameter `hash` of type `Hasher`,
 * any total function from byte strings to 32-byte digests, so every property below
 * holds whatever hash function is plugged in.
 */
module Utils {
  import opened Bytes
  import opened Errors

  type Hasher = seq<byte> -> Digest

  /** `hash_leaf`: the digest of a leaf's bytes. */
  function HashLeaf(hash: Hasher, leafData: seq<byte>): (d: Digest)
    ensures |d| == HASH_SIZE && d == hash(leafData)
  {
    hash(leafData)
  }

  /** The 64-byte buffer `hash_two_hashes` hashes: the left digest, then the right one. */
  function CombineInput(left: Digest, right: Digest): (combined: seq<byte>)
    ensures |combined| == 2 * HASH_SIZE
    ensures combined[..HASH_SIZE] == left && combined[HASH_SIZE..] == right
  {
    left + right
  }

  /** `hash_two_hashes`: the parent digest of `left` and `right`. */
  function HashTwoHashes(hash: Hasher, left: Digest, right: Digest): (d: Digest)
    ensures d == hash(left + right)
  {
    HashLeaf(hash, CombineInput(left, right))
  }

  /** The operands are not interchangeable: swapping two different digests changes the hashed input. */
  lemma CombineIsOrdered(left: Digest, right: Digest)
    requires left != right
    ensures CombineInput(left, right) != CombineInput(right, left)
  {
    assert CombineInput(left, right)[..HASH_SIZE] == left;
    assert CombineInput(right, left)[..HASH_SIZE] == right;
  }

  // ---------------------------------------------------------------------------
  // Level reduction
  // ---------------------------------------------------------------------------

  /**
   * The parent of chunk `j` of `level`: the chunk's two digests combined, or the
   * last digest combined with itself when it has no partner.
   */
  function ChunkParent(hash: Hasher, level: seq<Digest>, j: nat): Digest
    requires 2 * j < |level|
  {
    var left := level[2 * j];
    var right := if 2 * j + 1 < |level| then level[2 * j + 1] else left;
    HashTwoHashes(hash, left, right)
  }

  /** One pass of the builder: `level` taken in chunks of two, left to right. */
  function NextLevel(hash: Hasher, level: seq<Digest>): (next: seq<Digest>)
    ensures |next| == (|level| + 1) / 2
    decreases |level|
  {
    if |level| == 0 then []
    else if |level| == 1 then [HashTwoHashes(hash, level[0], level[0])]
    else [HashTwoHashes(hash, level[0], level[1])] + NextLevel(hash, level[2..])
  }

  /** Element `j` of the next level is the parent of chunk `j`. */
  lemma {:induction false} NextLevelAt(hash: Hasher, level: seq<Digest>, j: nat)
    requires 2 * j < |level|
    ensures |NextLevel(hash, level)| == (|level| + 1) / 2
    ensures NextLevel(hash, level)[j] == ChunkParent(hash, level, j)
    decreases j
  {
    if j > 0 {
      NextLevelAt(hash, level[2..], j - 1);
      assert level[2..][2 * (j - 1)] == level[2 * j];
      assert 2 * (j - 1) + 1 < |level[2..]| ==> level[2..][2 * (j - 1) + 1] == level[2 * j + 1];
    }
  }

  /** The specification of the root: reduce level by level until one digest is left. */
  function MerkleRoot(hash: Hasher, level: seq<Digest>): Digest
    requires |level| > 0
    decreases |level|
  {
    if |level| == 1 then level[0] else MerkleRoot(hash, NextLevel(hash, level))
  }

  /** The inner `for pair in current_level.chunks(2)` loop of `build_merkle_root`. */
  method ReduceLevel(hash: Hasher, currentLevel: seq<Digest>) returns (nextLevel: seq<Digest>)
    ensures nextLevel == NextLevel(hash, currentLevel)
  {
    nextLevel := [];
    var j := 0;
    while 2 * j < |currentLevel|
      invariant 2 * j <= |currentLevel| + 1
      invariant |nextLevel| == j
      invariant forall i :: 0 <= i < j ==> nextLevel[i] == ChunkParent(hash, currentLevel, i)
    {
      var chunkEnd := if 2 * j + 2 <= |currentLevel| then 2 * j + 2 else |currentLevel|;
      var pair := currentLevel[2 * j .. chunkEnd];
      var left := pair[0];
      var right := if |pair| > 1 then pair[1] else pair[0];
      assert HashTwoHashes(hash, left, right) == ChunkParent(hash, currentLevel, j);
      nextLevel := nextLevel + [HashTwoHashes(hash, left, right)];
      j := j + 1;
    }
    forall i | 0 <= i < |nextLevel|
      ensures nextLevel[i] == NextLevel(hash, currentLevel)[i]
    {
      NextLevelAt(hash, currentLevel, i);
    }
  }

  /**
   * `build_merkle_root`: fails with `EmptyTree` on no leaves, otherwise returns the
   * root. The leaves are a value: the caller's sequence is never changed.
   */
  method BuildMerkleRoot(hash: Hasher, leaves: seq<Digest>) returns (r: Result<Digest>)
    ensures leaves == [] ==> r == Err(ToProgramError(EmptyTree))
    ensures leaves != [] ==> r == Ok(MerkleRoot(hash, leaves))
  {
    if |leaves| == 0 {
      return Err(ToProgramError(EmptyTree));
    }
    var currentLevel := leaves;
    while |currentLevel| > 1
      invariant |currentLevel| > 0
      invariant MerkleRoot(hash, currentLevel) == MerkleRoot(hash, leaves)
      decreases |currentLevel|
    {
      currentLevel := ReduceLevel(hash, currentLevel);
    }
    return Ok(currentLevel[0]);
  }

  // ---------------------------------------------------------------------------
  // Shapes of the root
  // ---------------------------------------------------------------------------

  lemma SingleLeafRoot(hash: Hasher, a: Digest)
    ensures MerkleRoot(hash, [a]) == a
  {
  }

  lemma TwoLeafRoot(hash: Hasher, a: Digest, b: Digest)
    ensures MerkleRoot(hash, [a, b]) == HashTwoHashes(hash, a, b)
  {
    assert NextLevel(hash, [a, b]) == [HashTwoHashes(hash, a, b)];
  }

  /** With three leaves the unpaired third leaf is combined with itself. */
  lemma ThreeLeafRoot(hash: Hasher, a: Digest, b: Digest, c: Digest)
    ensures MerkleRoot(hash, [a, b, c])
         == HashTwoHashes(hash, HashTwoHashes(hash, a, b), HashTwoHashes(hash, c, c))
  {
    var ab, cc := HashTwoHashes(hash, a, b), HashTwoHashes(hash, c, c);
    assert [a, b, c][2..] == [c];
    assert NextLevel(hash, [a, b, c]) == [ab, cc];
    TwoLeafRoot(hash, ab, cc);
  }

  lemma FourLeafRoot(hash: Hasher, a: Digest, b: Digest, c: Digest, d: Digest)
    ensures MerkleRoot(hash, [a, b, c, d])
         == HashTwoHashes(hash, HashTwoHashes(hash, a, b), HashTwoHashes(hash, c, d))
  {
    var ab, cd := HashTwoHashes(hash, a, b), HashTwoHashes(hash, c, d);
    assert [a, b, c, d][2..] == [c, d];
    assert NextLevel(hash, [c, d]) == [cd];
    assert NextLevel(hash, [a, b, c, d]) == [ab, cd];
    TwoLeafRoot(hash, ab, cd);
  }

  // ---------------------------------------------------------------------------
  // Full trees
  // ---------------------------------------------------------------------------

  function Pow2(k: nat): (p: nat)
    ensures p >= 1
  {
    if k == 0 then 1 else 2 * Pow2(k - 1)
  }

  /** Reducing an even-length prefix and the rest separately gives the same level. */
  lemma {:induction false} NextLevelAppend(hash: Hasher, a: seq<Digest>, b: seq<Digest>)
    requires |a| % 2 == 0
    ensures NextLevel(hash, a + b) == NextLevel(hash, a) + NextLevel(hash, b)
    decreases |a|
  {
    if |a| > 0 {
      assert (a + b)[2..] == a[2..] + b;
      NextLevelAppend(hash, a[2..], b);
    } else {
      assert a + b == b;
    }
  }

  /**
   * For 2^k + 2^k leaves, the root is the parent of the roots of the two halves:
   * the builder is the balanced binary tree on full levels.
   */
  lemma {:induction false} FullTreeRoot(hash: Hasher, a: seq<Digest>, b: seq<Digest>, k: nat)
    requires |a| == Pow2(k) && |b| == Pow2(k)
    ensures MerkleRoot(hash, a + b) == HashTwoHashes(hash, MerkleRoot(hash, a), MerkleRoot(hash, b))
    decreases k
  {
    if k == 0 {
      assert a + b == [a[0], b[0]];
      TwoLeafRoot(hash, a[0], b[0]);
    } else {
      NextLevelAppend(hash, a, b);
      FullTreeRoot(hash, NextLevel(hash, a), NextLevel(hash, b), k - 1);
    }
  }
}
