/** The eight-bit shift register behind the frame trailer. */
module Register {
  import opened Bytes

  /** A byte as the contents of the register. */
  function ToBv(b: byte): bv8
  {
    b as bv8
  }

  /** The register's contents read back as a byte. */
  function FromBv(x: bv8): byte
  {
    x as int
  }

  /** One round of the inner loop: take the low bit, shift right, and XOR in
      the key when the bit was set. The register is eight bits wide, because
      every value XOR-ed into it lies below 256. */
  function Round(c: bv8, key: bv8): bv8
  {
    if c & 1 != 0 then (c >> 1) ^ key else c >> 1
  }

  /** `n` rounds, as the inner `for` loop performs them. */
  function Rounds(c: bv8, key: bv8, n: nat): bv8
  {
    if n == 0 then c else Round(Rounds(c, key, n - 1), key)
  }

  /** The eight rounds that follow each absorbed byte. */
  function Mix(c: bv8, key: bv8): bv8
  {
    Rounds(c, key, 8)
  }
}
