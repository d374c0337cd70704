/**
 * The layout of the fixed Pico header: each field's offset and length, the
 * magic string, the library's format version, and the position of the
 * header in the file.
 */
module PicoFileOffsets {
  import opened Bytes

  const MAGIC: seq<byte> := [0x91, 0xc0]
  const MAGIC_OFFSET: nat := 0
  const MAGIC_LENGTH: nat := |MAGIC|

  /** Format version written by this library. */
  const MAJOR: int := 0
  const MAJOR_OFFSET: nat := MAGIC_OFFSET + MAGIC_LENGTH
  const MAJOR_LENGTH: nat := 2
  const MINOR: int := 0
  const MINOR_OFFSET: nat := MAJOR_OFFSET + MAJOR_LENGTH
  const MINOR_LENGTH: nat := 2

  /** Offset from the start of the file to the encrypted data, a Java `int`. */
  const OFFSET_OFFSET: nat := MINOR_OFFSET + MINOR_LENGTH
  const OFFSET_LENGTH: nat := 4

  /** The hash is an MD5 digest, whose length is 16 bytes. */
  const HASH_OFFSET: nat := OFFSET_OFFSET + OFFSET_LENGTH
  const HASH_LENGTH: nat := 16

  /** Key length, a Java `short`. */
  const KEYSIZE_OFFSET: nat := HASH_OFFSET + HASH_LENGTH
  const KEYSIZE_LENGTH: nat := 2

  const KEY_OFFSET: nat := KEYSIZE_OFFSET + KEYSIZE_LENGTH

  /** The part of the header every version has: everything before the key. */
  const FIXED_HEADER_LENGTH: nat := KEY_OFFSET

  /** Where the header starts in a file. */
  const HEAD_START: nat := 0

  /** The concrete layout: magic at 0, versions at 2 and 4, offset at 6, hash at 10, key length at 26, key at 28. */
  lemma LayoutValues()
    ensures MAGIC_OFFSET == 0 && MAJOR_OFFSET == 2 && MINOR_OFFSET == 4
    ensures OFFSET_OFFSET == 6 && HASH_OFFSET == 10 && KEYSIZE_OFFSET == 26
    ensures KEY_OFFSET == 28 && FIXED_HEADER_LENGTH == 28
    ensures KEY_OFFSET + 13 == 0x29
  {
  }
}
