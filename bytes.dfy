/**
 * Byte-level vocabulary shared by the record layout and the instruction decoder:
 * bytes, unsigned 32-bit integers, 32-byte digests, and the two ways the program
 * lays digests out in a byte buffer (packed back to back, read back in whole chunks).
 */
module Bytes {
  import opened Wrappers

  type byte = x: int | 0 <= x < 0x100
  type u32 = x: int | 0 <= x < 0x1_0000_0000

  /** Size of a Solana `Hash` (src/state.rs:14). */
  const HASH_SIZE: nat := 32

  /** A 32-byte hash value (`solana_program::hash::Hash`, `[u8; 32]`). */
  type Digest = s: seq<byte> | |s| == HASH_SIZE witness seq(HASH_SIZE, _ => 0)

  /** An account address; only compared for equality. */
  type Pubkey = s: seq<byte> | |s| == 32 witness seq(32, _ => 0)

  // ---------------------------------------------------------------------------
  // Digests laid out back to back
  // ---------------------------------------------------------------------------

  /** The digests `ds` written one after another, with no padding. */
  function Flatten(ds: seq<Digest>): (s: seq<byte>)
    ensures |s| == HASH_SIZE * |ds|
  {
    if ds == [] then [] else ds[0] + Flatten(ds[1..])
  }

  /** Reads `s` as consecutive 32-byte digests; a trailing chunk shorter than 32 bytes is a failure. */
  function SplitDigests(s: seq<byte>): Option<seq<Digest>>
    decreases |s|
  {
    if |s| == 0 then Some([])
    else if |s| < HASH_SIZE then None
    else Prepend([s[..HASH_SIZE]], SplitDigests(s[HASH_SIZE..]))
  }

  lemma {:induction false} FlattenAppend(ds: seq<Digest>, d: Digest)
    ensures Flatten(ds + [d]) == Flatten(ds) + d
    decreases |ds|
  {
    if ds == [] {
      assert ds + [d] == [d];
    } else {
      assert (ds + [d])[1..] == ds[1..] + [d];
      FlattenAppend(ds[1..], d);
    }
  }

  /** Digest `k` of a flattened sequence occupies bytes [32k, 32k+32). */
  lemma {:induction false} FlattenAt(ds: seq<Digest>, k: nat)
    requires k < |ds|
    ensures Flatten(ds)[HASH_SIZE * k .. HASH_SIZE * k + HASH_SIZE] == ds[k]
    decreases k
  {
    if k > 0 {
      FlattenAt(ds[1..], k - 1);
      assert Flatten(ds) == ds[0] + Flatten(ds[1..]);
    }
  }

  /**
   * Splitting succeeds exactly when the length is a multiple of 32; it then yields
   * |s|/32 digests, digest k being bytes [32k, 32k+32) of `s`.
   */
  lemma {:induction false} SplitDigestsSpec(s: seq<byte>)
    ensures SplitDigests(s).Some? <==> |s| % HASH_SIZE == 0
    ensures SplitDigests(s).Some? ==>
              |SplitDigests(s).value| == |s| / HASH_SIZE &&
              forall k :: 0 <= k < |s| / HASH_SIZE ==>
                SplitDigests(s).value[k] == s[HASH_SIZE * k .. HASH_SIZE * k + HASH_SIZE]
    decreases |s|
  {
    if |s| >= HASH_SIZE {
      var tail := s[HASH_SIZE..];
      SplitDigestsSpec(tail);
      if SplitDigests(tail).Some? {
        var ds := SplitDigests(s).value;
        assert ds == [s[..HASH_SIZE]] + SplitDigests(tail).value;
        forall k | 0 <= k < |s| / HASH_SIZE
          ensures ds[k] == s[HASH_SIZE * k .. HASH_SIZE * k + HASH_SIZE]
        {
          if k > 0 {
            assert ds[k] == SplitDigests(tail).value[k - 1];
            assert tail[HASH_SIZE * (k - 1) .. HASH_SIZE * (k - 1) + HASH_SIZE]
                == s[HASH_SIZE * k .. HASH_SIZE * k + HASH_SIZE];
          }
        }
      }
    }
  }

  /** Reading back what `Flatten` wrote gives the same digests. */
  lemma {:induction false} SplitFlatten(ds: seq<Digest>)
    ensures SplitDigests(Flatten(ds)) == Some(ds)
    decreases |ds|
  {
    if ds != [] {
      var s := Flatten(ds);
      assert s[..HASH_SIZE] == ds[0] && s[HASH_SIZE..] == Flatten(ds[1..]);
      SplitFlatten(ds[1..]);
      assert [ds[0]] + ds[1..] == ds;
    }
  }

  /** Writing back what `SplitDigests` read gives the same bytes. */
  lemma {:induction false} FlattenSplit(s: seq<byte>)
    requires SplitDigests(s).Some?
    ensures Flatten(SplitDigests(s).value) == s
    decreases |s|
  {
    if |s| > 0 {
      var ds := SplitDigests(s).value;
      FlattenSplit(s[HASH_SIZE..]);
      assert ds[1..] == SplitDigests(s[HASH_SIZE..]).value;
      assert s[..HASH_SIZE] + s[HASH_SIZE..] == s;
    }
  }

  // ---------------------------------------------------------------------------
  // Little-endian u32 (`u32::from_le_bytes` / `u32::to_le_bytes`)
  // ---------------------------------------------------------------------------

  function FromLeBytes(b: seq<byte>): (x: u32)
    requires |b| == 4
    ensures x % 0x100 == b[0]
    ensures x / 0x1_00_00_00 == b[3]
  {
    b[0] as int + 0x100 * b[1] as int + 0x1_00_00 * b[2] as int + 0x1_00_00_00 * b[3] as int
  }

  function ToLeBytes(x: u32): (b: seq<byte>)
    ensures |b| == 4
  {
    var q1 := x / 0x100;
    var q2 := q1 / 0x100;
    [x % 0x100, q1 % 0x100, q2 % 0x100, q2 / 0x100]
  }

  /** Division by 256 of a number written with a low byte `lo`. */
  lemma DivMod256(lo: int, hi: int)
    requires 0 <= lo < 0x100
    ensures (lo + 0x100 * hi) / 0x100 == hi && (lo + 0x100 * hi) % 0x100 == lo
  {
  }

  lemma FromToLeBytes(x: u32)
    ensures FromLeBytes(ToLeBytes(x)) == x
  {
    var q1 := x / 0x100;
    var q2 := q1 / 0x100;
    assert x == x % 0x100 + 0x100 * q1;
    assert q1 == q1 % 0x100 + 0x100 * q2;
    assert q2 == q2 % 0x100 + 0x100 * (q2 / 0x100);
  }

  lemma ToFromLeBytes(b: seq<byte>)
    requires |b| == 4
    ensures ToLeBytes(FromLeBytes(b)) == b
  {
    var x := FromLeBytes(b);
    var q2 := b[2] as int + 0x100 * b[3] as int;
    var q1 := b[1] as int + 0x100 * q2;
    assert x == b[0] as int + 0x100 * q1;
    DivMod256(b[0], q1);
    DivMod256(b[1], q2);
    DivMod256(b[2], b[3]);
  }
}
