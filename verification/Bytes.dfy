/** Bytes, digests and the fixed-width integers that the contract, the hash tree and the
    canonical encoding share. */
module Bytes {

  newtype Byte = x: int | 0 <= x < 256

  type Bytes = seq<Byte>

  /** A 32-byte value: a Merkle root, an organisation's namespace. The ledger only ever
      compares such values, so the length is stated where a length matters: in the hash tree. */
  datatype Digest = Digest(bytes: Bytes)

  const U32_MAX: nat := 0xFFFF_FFFF
  const U64_MAX: nat := 0xFFFF_FFFF_FFFF_FFFF
  const I128_MAX: int := 0x7FFF_FFFF_FFFF_FFFF_FFFF_FFFF_FFFF_FFFF

  type U32 = x: nat | x <= U32_MAX
  type U64 = x: nat | x <= U64_MAX
  type I128 = x: int | -I128_MAX - 1 <= x <= I128_MAX
}
