/**
 * The program's instructions and the tag-byte decoder `MerkleInstruction::unpack`.
 *
 * Wire format: one tag byte, then
 *   tag 0 (BuildTree):   records `[len: u8][len bytes]`, back to back, to the end;
 *   tag 1 (BuildProof):  exactly four bytes, a little-endian u32 leaf index;
 *   tag 2 (VerifyProof): `[len: u8][len bytes of leaf]` followed by whole 32-byte hashes.
 */
module Instruction {
  import opened Wrappers
  import opened Bytes
  import opened Errors

  datatype MerkleInstruction =
    | BuildTree(data: seq<seq<byte>>)
    | BuildProof(leafIndex: u32)
    | VerifyProof(leafData: seq<byte>, proof: seq<Digest>)

  // ---------------------------------------------------------------------------
  // Specification of the decoder
  // ---------------------------------------------------------------------------

  /** The records of a BuildTree payload; a record whose length runs past the end is a failure. */
  function ParseRecords(s: seq<byte>): Option<seq<seq<byte>>>
    decreases |s|
  {
    if |s| == 0 then Some([])
    else
      var length := s[0] as nat;
      if 1 + length > |s| then None
      else Prepend([s[1..1 + length]], ParseRecords(s[1 + length..]))
  }

  /** What `MerkleInstruction::unpack` returns for `input`. */
  function Decode(input: seq<byte>): Result<MerkleInstruction>
  {
    if |input| == 0 then Err(ProgramError.InvalidInstructionData)
    else
      var tag, rest := input[0], input[1..];
      if tag == 0 then
        match ParseRecords(rest)
        case None => Err(ProgramError.InvalidInstructionData)
        case Some(data) => Ok(BuildTree(data))
      else if tag == 1 then
        if |rest| != 4 then Err(ProgramError.InvalidInstructionData)
        else Ok(BuildProof(FromLeBytes(rest)))
      else if tag == 2 then
        if |rest| == 0 then Err(ProgramError.InvalidInstructionData)
        else
          var leafLength, body := rest[0] as nat, rest[1..];
          if |body| < leafLength then Err(ProgramError.InvalidInstructionData)
          else match SplitDigests(body[leafLength..])
            case None => Err(ProgramError.InvalidInstructionData)
            case Some(proof) => Ok(VerifyProof(body[..leafLength], proof))
      else Err(ProgramError.InvalidInstructionData)
  }

  // ---------------------------------------------------------------------------
  // The encoder the decoder inverts
  // ---------------------------------------------------------------------------

  /** Every record length fits the one-byte length prefix. */
  predicate Encodable(ins: MerkleInstruction)
  {
    match ins
    case BuildTree(data) => forall i :: 0 <= i < |data| ==> |data[i]| < 0x100
    case BuildProof(_) => true
    case VerifyProof(leafData, _) => |leafData| < 0x100
  }

  function EncodeRecords(data: seq<seq<byte>>): seq<byte>
    requires forall i :: 0 <= i < |data| ==> |data[i]| < 0x100
  {
    if data == [] then [] else [|data[0]| as byte] + data[0] + EncodeRecords(data[1..])
  }

  function Encode(ins: MerkleInstruction): seq<byte>
    requires Encodable(ins)
  {
    match ins
    case BuildTree(data) => [0] + EncodeRecords(data)
    case BuildProof(leafIndex) => [1] + ToLeBytes(leafIndex)
    case VerifyProof(leafData, proof) => [2, |leafData| as byte] + leafData + Flatten(proof)
  }

  // ---------------------------------------------------------------------------
  // The imperative decoder
  // ---------------------------------------------------------------------------

  /** The tag-0 loop of `unpack`: length-prefixed records until the payload is used up. */
  method UnpackRecords(rest: seq<byte>) returns (r: Option<seq<seq<byte>>>)
    ensures r == ParseRecords(rest)
  {
    var data: seq<seq<byte>> := [];
    var offset := 0;
    PrependNil(ParseRecords(rest));
    while offset < |rest|
      invariant offset <= |rest|
      invariant ParseRecords(rest) == Prepend(data, ParseRecords(rest[offset..]))
      decreases |rest| - offset
    {
      var length := rest[offset] as nat;
      ghost var start := offset;
      offset := offset + 1;
      if offset + length > |rest| {
        return None;
      }
      var record := rest[offset..offset + length];
      assert rest[start..][1..1 + length] == record;
      assert rest[start..][1 + length..] == rest[offset + length..];
      PrependPrepend(data, [record], ParseRecords(rest[offset + length..]));
      data := data + [record];
      offset := offset + length;
    }
    assert rest[offset..] == [];
    assert data + [] == data;
    return Some(data);
  }

  /** The tag-2 loop of `unpack`: whole 32-byte hashes from `offset` to the end of `rest`. */
  method UnpackHashes(rest: seq<byte>, offset: nat) returns (r: Option<seq<Digest>>)
    requires offset <= |rest|
    ensures r == SplitDigests(rest[offset..])
  {
    var proof: seq<Digest> := [];
    var offset := offset;
    ghost var start := offset;
    PrependNil(SplitDigests(rest[start..]));
    while offset < |rest|
      invariant start <= offset <= |rest|
      invariant SplitDigests(rest[start..]) == Prepend(proof, SplitDigests(rest[offset..]))
      decreases |rest| - offset
    {
      if |rest[offset..]| < HASH_SIZE {
        return None;
      }
      var hash: Digest := rest[offset..offset + HASH_SIZE];
      assert rest[offset..][..HASH_SIZE] == hash;
      assert rest[offset..][HASH_SIZE..] == rest[offset + HASH_SIZE..];
      PrependPrepend(proof, [hash], SplitDigests(rest[offset + HASH_SIZE..]));
      proof := proof + [hash];
      offset := offset + HASH_SIZE;
    }
    assert rest[offset..] == [];
    assert proof + [] == proof;
    return Some(proof);
  }

  /** `MerkleInstruction::unpack`. */
  method Unpack(input: seq<byte>) returns (r: Result<MerkleInstruction>)
    ensures r == Decode(input)
  {
    if |input| == 0 {
      return Err(ProgramError.InvalidInstructionData);
    }
    var tag, rest := input[0], input[1..];
    if tag == 0 {
      var data := UnpackRecords(rest);
      if data.None? {
        return Err(ProgramError.InvalidInstructionData);
      }
      return Ok(BuildTree(data.value));
    } else if tag == 1 {
      if |rest| != 4 {
        return Err(ProgramError.InvalidInstructionData);
      }
      var leafIndex := FromLeBytes(rest);
      return Ok(BuildProof(leafIndex));
    } else if tag == 2 {
      if |rest| == 0 {
        return Err(ProgramError.InvalidInstructionData);
      }
      var leafLength, body := rest[0] as nat, rest[1..];
      if |body| < leafLength {
        return Err(ProgramError.InvalidInstructionData);
      }
      var leafData := body[..leafLength];
      var proof := UnpackHashes(body, leafLength);
      if proof.None? {
        return Err(ProgramError.InvalidInstructionData);
      }
      return Ok(VerifyProof(leafData, proof.value));
    } else {
      return Err(ProgramError.InvalidInstructionData);
    }
  }

  // ---------------------------------------------------------------------------
  // Properties of the decoder
  // ---------------------------------------------------------------------------

  /**
   * The decoder's failures: empty input, an unknown tag, a BuildProof payload that is
   * not exactly four bytes, a VerifyProof payload without its length byte or shorter
   * than the leaf it announces; every failure is `InvalidInstructionData`.
   */
  lemma DecodeRejects(input: seq<byte>)
    ensures Decode(input).Err? ==> Decode(input).error == ProgramError.InvalidInstructionData
    ensures |input| == 0 ==> Decode(input).Err?
    ensures |input| > 0 && input[0] > 2 ==> Decode(input).Err?
    ensures |input| > 0 && input[0] == 1 ==> (Decode(input).Ok? <==> |input| == 5)
    ensures |input| > 0 && input[0] == 2 && (|input| == 1 || |input| - 2 < input[1] as int) ==> Decode(input).Err?
  {
  }

  /**
   * BuildTree payloads: an empty payload is an empty record list, and a record that
   * announces more bytes than remain makes the whole payload fail, whatever well-formed
   * records precede it.
   */
  lemma {:induction false} ParseRecordsOverrun(data: seq<seq<byte>>, tail: seq<byte>)
    requires forall i :: 0 <= i < |data| ==> |data[i]| < 0x100
    requires |tail| > 0 && 1 + tail[0] as int > |tail|
    ensures ParseRecords([]) == Some([])
    ensures ParseRecords(EncodeRecords(data) + tail) == None
    decreases |data|
  {
    if data != [] {
      var s := EncodeRecords(data) + tail;
      var length := |data[0]|;
      assert s[0] as nat == length;
      assert s[1 + length..] == EncodeRecords(data[1..]) + tail;
      ParseRecordsOverrun(data[1..], tail);
    } else {
      assert EncodeRecords(data) + tail == tail;
    }
  }

  /**
   * A VerifyProof payload decodes exactly when what follows the leaf is a whole number
   * of 32-byte hashes; the proof then has that many hashes, hash k being bytes
   * [32k, 32k+32) after the leaf.
   */
  lemma VerifyProofShape(input: seq<byte>)
    requires |input| >= 2 && input[0] == 2
    requires input[1] as int <= |input| - 2
    ensures var hashes := input[2 + input[1] as int..];
      && (Decode(input).Ok? <==> |hashes| % HASH_SIZE == 0)
      && (Decode(input).Ok? ==>
            && Decode(input).value.VerifyProof?
            && Decode(input).value.leafData == input[2..2 + input[1] as int]
            && |Decode(input).value.proof| == |hashes| / HASH_SIZE
            && forall k :: 0 <= k < |hashes| / HASH_SIZE ==>
                 Decode(input).value.proof[k] == hashes[HASH_SIZE * k .. HASH_SIZE * k + HASH_SIZE])
  {
    var leafLength := input[1] as int;
    assert input[1..][1..] == input[2..];
    assert input[2..][leafLength..] == input[2 + leafLength..];
    assert input[2..][..leafLength] == input[2..2 + leafLength];
    SplitDigestsSpec(input[2 + leafLength..]);
  }

  lemma {:induction false} ParseEncodedRecords(data: seq<seq<byte>>)
    requires forall i :: 0 <= i < |data| ==> |data[i]| < 0x100
    ensures ParseRecords(EncodeRecords(data)) == Some(data)
    decreases |data|
  {
    if data != [] {
      var s := EncodeRecords(data);
      var length := |data[0]|;
      assert s[0] as nat == length;
      assert s[1..1 + length] == data[0];
      assert s[1 + length..] == EncodeRecords(data[1..]);
      ParseEncodedRecords(data[1..]);
      assert [data[0]] + data[1..] == data;
    }
  }

  /** Every parsed record is shorter than 256 bytes: its length came from one byte. */
  lemma {:induction false} ParsedRecordsShort(s: seq<byte>, data: seq<seq<byte>>)
    requires ParseRecords(s) == Some(data)
    ensures forall i :: 0 <= i < |data| ==> |data[i]| < 0x100
    decreases |s|
  {
    if |s| > 0 {
      var length := s[0] as nat;
      var rest := ParseRecords(s[1 + length..]).value;
      ParsedRecordsShort(s[1 + length..], rest);
      assert data == [s[1..1 + length]] + rest;
    }
  }

  lemma EncodeRecordsCons(d: seq<byte>, rest: seq<seq<byte>>)
    requires |d| < 0x100 && forall i :: 0 <= i < |rest| ==> |rest[i]| < 0x100
    ensures forall i :: 0 <= i < |[d] + rest| ==> |([d] + rest)[i]| < 0x100
    ensures EncodeRecords([d] + rest) == [|d| as byte] + d + EncodeRecords(rest)
  {
    assert ([d] + rest)[1..] == rest;
  }

  /** Re-encoding the records a payload parses to gives the payload back. */
  lemma {:induction false} EncodeParsedRecords(s: seq<byte>, data: seq<seq<byte>>)
    requires ParseRecords(s) == Some(data)
    requires forall i :: 0 <= i < |data| ==> |data[i]| < 0x100
    ensures EncodeRecords(data) == s
    decreases |s|
  {
    if |s| > 0 {
      var length := s[0] as nat;
      var record, tail := s[1..1 + length], s[1 + length..];
      var rest := ParseRecords(tail).value;
      assert data == [record] + rest;
      ParsedRecordsShort(tail, rest);
      EncodeParsedRecords(tail, rest);
      EncodeRecordsCons(record, rest);
      assert |record| as byte == s[0];
      HeadRecordTail(s, length);
    }
  }

  lemma HeadRecordTail(s: seq<byte>, length: nat)
    requires 1 + length <= |s|
    ensures [s[0]] + s[1..1 + length] + s[1 + length..] == s
  {
  }

  /** Every encodable instruction decodes back to itself. */
  lemma DecodeEncode(ins: MerkleInstruction)
    requires Encodable(ins)
    ensures Decode(Encode(ins)) == Ok(ins)
  {
    var input := Encode(ins);
    assert input[1..] == Encode(ins)[1..];
    match ins
    case BuildTree(data) =>
      assert input[1..] == EncodeRecords(data);
      ParseEncodedRecords(data);
    case BuildProof(leafIndex) =>
      assert input[1..] == ToLeBytes(leafIndex);
      FromToLeBytes(leafIndex);
    case VerifyProof(leafData, proof) =>
      var body := input[1..][1..];
      assert body == leafData + Flatten(proof);
      assert body[..|leafData|] == leafData;
      assert body[|leafData|..] == Flatten(proof);
      SplitFlatten(proof);
  }

  /** Every input that decodes is the encoding of what it decodes to: the decoder is injective. */
  lemma EncodeDecode(input: seq<byte>)
    requires Decode(input).Ok?
    ensures Encodable(Decode(input).value)
    ensures Encode(Decode(input).value) == input
  {
    var rest := input[1..];
    assert input == [input[0]] + rest;
    match Decode(input).value
    case BuildTree(data) =>
      ParsedRecordsShort(rest, data);
      EncodeParsedRecords(rest, data);
    case BuildProof(leafIndex) =>
      ToFromLeBytes(rest);
    case VerifyProof(leafData, proof) =>
      EncodeDecodeVerifyProof(input);
  }

  lemma EncodeDecodeVerifyProof(input: seq<byte>)
    requires Decode(input).Ok? && Decode(input).value.VerifyProof?
    ensures Encodable(Decode(input).value)
    ensures Encode(Decode(input).value) == input
  {
    var rest := input[1..];
    var leafLength, body := rest[0] as nat, rest[1..];
    var leafData, proof := Decode(input).value.leafData, Decode(input).value.proof;
    assert leafData == body[..leafLength];
    assert Some(proof) == SplitDigests(body[leafLength..]);
    FlattenSplit(body[leafLength..]);
    assert input == [2, leafLength as byte] + body;
    assert body == leafData + Flatten(proof);
  }
}
