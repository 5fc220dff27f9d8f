/** The frame trailer: two bytes computed by a bit-serial, CRC-8-like
    register, once with each of two fixed secrets. */
module Checksum {
  import opened Bytes
  import opened Register

  const SecretA := 28
  const SecretB := 122

  /** `value & 0xFF`: for every integer, positive or negative, the residue modulo 256. */
  function Unsigned(value: int): byte
  {
    value % 256
  }

  /** The source's range guard: when it holds, no byte is read and the result is 0. */
  predicate Degenerate(len: int, start: int, end: int)
  {
    var length := len - 1;
    start < 0 || start >= length || end > length || end <= start
  }

  /** The register after the bytes of `s` have been absorbed, starting from 0. */
  function Crc(s: seq<int>, key: bv8): bv8
  {
    if s == [] then 0
    else Mix(Crc(s[..|s| - 1], key) ^ ToBv(Unsigned(s[|s| - 1])), key)
  }

  /** `compute_checksum(data, start, end, secret)`: the register over
      `data[start..end]`, both ends included, or 0 when the guard fires. */
  function Checksum(data: seq<int>, start: int, end: int, secret: int): byte
  {
    if Degenerate(|data|, start, end) then 0
    else FromBv(Crc(data[start..end + 1], ToBv(Unsigned(secret))))
  }

  /** `get_checksum(data, start, end)`: the trailer pair. */
  function Trailer(data: seq<int>, start: int, end: int): seq<byte>
  {
    [Checksum(data, start, end, SecretA), Checksum(data, start, end, SecretB)]
  }

  /** `ChecksumHandler.compute_checksum`, with its outer `while` over the
      range and its inner eight-round loop. */
  method ComputeChecksum(data: seq<int>, startIndex: int, endIndex: int, secretByte: int) returns (checksum: byte)
    ensures checksum == Checksum(data, startIndex, endIndex, secretByte)
    ensures Degenerate(|data|, startIndex, endIndex) ==> checksum == 0
  {
    var length := |data| - 1;
    if startIndex < 0 || startIndex >= length || endIndex > length || endIndex <= startIndex {
      return 0;
    }
    var unsignedByte := ToBv(Unsigned(secretByte));
    var acc: bv8 := 0;
    var i := startIndex;
    while i <= endIndex
      invariant startIndex <= i <= endIndex + 1
      invariant acc == Crc(data[startIndex..i], unsignedByte)
    {
      acc := MixIn(acc, ToBv(Unsigned(data[i])), unsignedByte);
      CrcStep(data, startIndex, i, unsignedByte);
      i := i + 1;
    }
    assert i == endIndex + 1;
    checksum := FromBv(acc);
  }

  /** Extending the range by one byte absorbs that byte into the register. */
  lemma CrcStep(data: seq<int>, start: nat, i: nat, key: bv8)
    requires start <= i < |data|
    ensures Crc(data[start..i + 1], key) == Mix(Crc(data[start..i], key) ^ ToBv(Unsigned(data[i])), key)
  {
    var s := data[start..i + 1];
    assert s[..|s| - 1] == data[start..i];
    assert s[|s| - 1] == data[i];
  }

  /** One pass of the outer loop's body: XOR the byte in, then the eight
      shift/XOR rounds of the inner loop. */
  method MixIn(acc: bv8, b: bv8, key: bv8) returns (next: bv8)
    ensures next == Mix(acc ^ b, key)
  {
    next := acc ^ b;
    ghost var absorbed := next;
    for r := 0 to 8
      invariant next == Rounds(absorbed, key, r)
    {
      var bit := next & 1;
      next := next >> 1;
      if bit != 0 {
        next := next ^ key;
      }
    }
  }

  /** `ChecksumHandler.get_checksum`: both registers over one range. */
  method GetChecksum(data: seq<int>, startIndex: int, endIndex: int) returns (pair: seq<byte>)
    ensures pair == Trailer(data, startIndex, endIndex)
    ensures |pair| == 2
  {
    var a := ComputeChecksum(data, startIndex, endIndex, SecretA);
    var b := ComputeChecksum(data, startIndex, endIndex, SecretB);
    pair := [a, b];
  }

  lemma {:induction false} CrcCongruent(s1: seq<int>, s2: seq<int>, key: bv8)
    requires |s1| == |s2|
    requires forall i :: 0 <= i < |s1| ==> Unsigned(s1[i]) == Unsigned(s2[i])
    ensures Crc(s1, key) == Crc(s2, key)
  {
    if s1 != [] {
      CrcCongruent(s1[..|s1| - 1], s2[..|s2| - 1], key);
    }
  }

  /** The trailer reads nothing but the length of the data and the bytes
      `start..end` of it, each taken modulo 256. */
  lemma ChecksumReadsOnlyRange(d1: seq<int>, d2: seq<int>, start: int, end: int)
    requires |d1| == |d2|
    requires forall i :: 0 <= start <= i <= end < |d1| ==> Unsigned(d1[i]) == Unsigned(d2[i])
    ensures Trailer(d1, start, end) == Trailer(d2, start, end)
  {
    if !Degenerate(|d1|, start, end) {
      CrcCongruent(d1[start..end + 1], d2[start..end + 1], ToBv(Unsigned(SecretA)));
      CrcCongruent(d1[start..end + 1], d2[start..end + 1], ToBv(Unsigned(SecretB)));
    }
  }
}
