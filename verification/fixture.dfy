/**
 * The worked example of the test suite (`RoundTrip`): a 13-byte key and 36
 * bytes of data, and the ciphertext the suite lists for them.
 */
module FixtureData {
  import opened Bytes
  import opened PicoHeader

  const KEY: seq<byte> := [0x00, 0x11, 0x77, 0x55, 0xff, 0xa8, 0x23, 0x26, 0xa4, 0x3e, 0x2a, 0x7a, 0x43]

  /** "This is a TEST.\n", 00 ff 55 aa, "A test this is.", 0x37. */
  const DATA: seq<byte> := [
    0x54, 0x68, 0x69, 0x73, 0x20, 0x69, 0x73, 0x20, 0x61, 0x20, 0x54, 0x45, 0x53, 0x54, 0x2e, 0x0a,
    0x00, 0xff, 0x55, 0xaa,
    0x41, 0x20, 0x74, 0x65, 0x73, 0x74, 0x20, 0x74, 0x68, 0x69, 0x73, 0x20, 0x69, 0x73, 0x2e, 0x37]

  /** The encrypted data as the test suite lists it. */
  const ENCRYPTED: seq<byte> := [
    0x54, 0x79, 0x1e, 0x26, 0xdf, 0xc1, 0x50, 0x06, 0xc5, 0x1e, 0x7e, 0x3f, 0x10, 0x54, 0x3f, 0x7d,
    0x55, 0x00, 0xfd, 0x89, 0x67, 0x84, 0x4a, 0x4f, 0x09, 0x37, 0x20, 0x65, 0x1f, 0x3c, 0x8c, 0x88,
    0x4a, 0x55, 0x8a, 0x09]

  /** The data, ciphered with the key from position 0, is the listed ciphertext. */
  lemma FixtureCiphertext()
    ensures Cipher(KEY, DATA, 0) == ENCRYPTED
  {
    CiphertextAt0();
    CiphertextAt1();
    CiphertextAt2();
    CiphertextAt3();
    CiphertextAt4();
    CiphertextAt5();
    CiphertextAt6();
    CiphertextAt7();
    CiphertextAt8();
    CiphertextAt9();
    CiphertextAt10();
    CiphertextAt11();
    CiphertextAt12();
    CiphertextAt13();
    CiphertextAt14();
    CiphertextAt15();
    CiphertextAt16();
    CiphertextAt17();
    CiphertextAt18();
    CiphertextAt19();
    CiphertextAt20();
    CiphertextAt21();
    CiphertextAt22();
    CiphertextAt23();
    CiphertextAt24();
    CiphertextAt25();
    CiphertextAt26();
    CiphertextAt27();
    CiphertextAt28();
    CiphertextAt29();
    CiphertextAt30();
    CiphertextAt31();
    CiphertextAt32();
    CiphertextAt33();
    CiphertextAt34();
    CiphertextAt35();
    forall i | 0 <= i < |DATA|
      ensures Cipher(KEY, DATA, 0)[i] == ENCRYPTED[i]
    {
      if i == 0 {}
      else if i == 1 {}
      else if i == 2 {}
      else if i == 3 {}
      else if i == 4 {}
      else if i == 5 {}
      else if i == 6 {}
      else if i == 7 {}
      else if i == 8 {}
      else if i == 9 {}
      else if i == 10 {}
      else if i == 11 {}
      else if i == 12 {}
      else if i == 13 {}
      else if i == 14 {}
      else if i == 15 {}
      else if i == 16 {}
      else if i == 17 {}
      else if i == 18 {}
      else if i == 19 {}
      else if i == 20 {}
      else if i == 21 {}
      else if i == 22 {}
      else if i == 23 {}
      else if i == 24 {}
      else if i == 25 {}
      else if i == 26 {}
      else if i == 27 {}
      else if i == 28 {}
      else if i == 29 {}
      else if i == 30 {}
      else if i == 31 {}
      else if i == 32 {}
      else if i == 33 {}
      else if i == 34 {}
      else if i == 35 {}
    }
  }

  // One lemma per index: each keeps a single literal XOR in its own proof
  // obligation, which a combined case split or a keystream table does not
  // manage within the resource limit.
  lemma CiphertextAt0()
    ensures Cipher(KEY, DATA, 0)[0] == ENCRYPTED[0]
  {
  }

  lemma CiphertextAt1()
    ensures Cipher(KEY, DATA, 0)[1] == ENCRYPTED[1]
  {
  }

  lemma CiphertextAt2()
    ensures Cipher(KEY, DATA, 0)[2] == ENCRYPTED[2]
  {
  }

  lemma CiphertextAt3()
    ensures Cipher(KEY, DATA, 0)[3] == ENCRYPTED[3]
  {
  }

  lemma CiphertextAt4()
    ensures Cipher(KEY, DATA, 0)[4] == ENCRYPTED[4]
  {
  }

  lemma CiphertextAt5()
    ensures Cipher(KEY, DATA, 0)[5] == ENCRYPTED[5]
  {
  }

  lemma CiphertextAt6()
    ensures Cipher(KEY, DATA, 0)[6] == ENCRYPTED[6]
  {
  }

  lemma CiphertextAt7()
    ensures Cipher(KEY, DATA, 0)[7] == ENCRYPTED[7]
  {
  }

  lemma CiphertextAt8()
    ensures Cipher(KEY, DATA, 0)[8] == ENCRYPTED[8]
  {
  }

  lemma CiphertextAt9()
    ensures Cipher(KEY, DATA, 0)[9] == ENCRYPTED[9]
  {
  }

  lemma CiphertextAt10()
    ensures Cipher(KEY, DATA, 0)[10] == ENCRYPTED[10]
  {
  }

  lemma CiphertextAt11()
    ensures Cipher(KEY, DATA, 0)[11] == ENCRYPTED[11]
  {
  }

  lemma CiphertextAt12()
    ensures Cipher(KEY, DATA, 0)[12] == ENCRYPTED[12]
  {
  }

  lemma CiphertextAt13()
    ensures Cipher(KEY, DATA, 0)[13] == ENCRYPTED[13]
  {
  }

  lemma CiphertextAt14()
    ensures Cipher(KEY, DATA, 0)[14] == ENCRYPTED[14]
  {
  }

  lemma CiphertextAt15()
    ensures Cipher(KEY, DATA, 0)[15] == ENCRYPTED[15]
  {
  }

  lemma CiphertextAt16()
    ensures Cipher(KEY, DATA, 0)[16] == ENCRYPTED[16]
  {
  }

  lemma CiphertextAt17()
    ensures Cipher(KEY, DATA, 0)[17] == ENCRYPTED[17]
  {
  }

  lemma CiphertextAt18()
    ensures Cipher(KEY, DATA, 0)[18] == ENCRYPTED[18]
  {
  }

  lemma CiphertextAt19()
    ensures Cipher(KEY, DATA, 0)[19] == ENCRYPTED[19]
  {
  }

  lemma CiphertextAt20()
    ensures Cipher(KEY, DATA, 0)[20] == ENCRYPTED[20]
  {
  }

  lemma CiphertextAt21()
    ensures Cipher(KEY, DATA, 0)[21] == ENCRYPTED[21]
  {
  }

  lemma CiphertextAt22()
    ensures Cipher(KEY, DATA, 0)[22] == ENCRYPTED[22]
  {
  }

  lemma CiphertextAt23()
    ensures Cipher(KEY, DATA, 0)[23] == ENCRYPTED[23]
  {
  }

  lemma CiphertextAt24()
    ensures Cipher(KEY, DATA, 0)[24] == ENCRYPTED[24]
  {
  }

  lemma CiphertextAt25()
    ensures Cipher(KEY, DATA, 0)[25] == ENCRYPTED[25]
  {
  }

  lemma CiphertextAt26()
    ensures Cipher(KEY, DATA, 0)[26] == ENCRYPTED[26]
  {
  }

  lemma CiphertextAt27()
    ensures Cipher(KEY, DATA, 0)[27] == ENCRYPTED[27]
  {
  }

  lemma CiphertextAt28()
    ensures Cipher(KEY, DATA, 0)[28] == ENCRYPTED[28]
  {
  }

  lemma CiphertextAt29()
    ensures Cipher(KEY, DATA, 0)[29] == ENCRYPTED[29]
  {
  }

  lemma CiphertextAt30()
    ensures Cipher(KEY, DATA, 0)[30] == ENCRYPTED[30]
  {
  }

  lemma CiphertextAt31()
    ensures Cipher(KEY, DATA, 0)[31] == ENCRYPTED[31]
  {
  }

  lemma CiphertextAt32()
    ensures Cipher(KEY, DATA, 0)[32] == ENCRYPTED[32]
  {
  }

  lemma CiphertextAt33()
    ensures Cipher(KEY, DATA, 0)[33] == ENCRYPTED[33]
  {
  }

  lemma CiphertextAt34()
    ensures Cipher(KEY, DATA, 0)[34] == ENCRYPTED[34]
  {
  }

  lemma CiphertextAt35()
    ensures Cipher(KEY, DATA, 0)[35] == ENCRYPTED[35]
  {
  }
}

/**
 * The worked example of the test suite (`RoundTrip`): a 13-byte key and 36
 * bytes of data, written by an output stream.  Every byte of the file but
 * the 16 hash bytes is pinned down; the hash is MD5's, which this model
 * leaves abstract.
 */
module Fixture {
  import opened Wrappers
  import opened Bytes
  import opened PicoFileOffsets
  import opened PicoHeader
  import opened Digest
  import opened PicoFileProps
  import opened RoundTrips
  import opened FixtureData

  /** The two-byte and four-byte big-endian fields the example's header holds. */
  lemma FixtureFields()
    ensures ToBE(MAJOR, MAJOR_LENGTH) == [0x00, 0x00]
    ensures ToBE(MINOR, MINOR_LENGTH) == [0x00, 0x00]
    ensures ToBE(0x29, OFFSET_LENGTH) == [0x00, 0x00, 0x00, 0x29]
    ensures ToBE(13, KEYSIZE_LENGTH) == [0x00, 0x0d]
  {
    Pow256Values();
    NatToBEByte(0, 2);
    NatToBEByte(0x29, 4);
    NatToBEByte(13, 2);
    assert ByteOf(0) == 0x00 && ByteOf(13) == 0x0d && ByteOf(0x29) == 0x29;
  }

  /** Magic 91 c0, major and minor version 0, data offset 0x29. */
  const PREFIX: seq<byte> := [0x91, 0xc0, 0x00, 0x00, 0x00, 0x00, 0x00, 0x00, 0x00, 0x29]

  /** The encoded header field by field, before the numeric fields are spelled out. */
  lemma FixtureLayout()
    ensures PutHeader(FinalHeader(KEY, DATA)).Success?
    ensures PutHeader(FinalHeader(KEY, DATA)).value.0
      == MAGIC + ToBE(MAJOR, MAJOR_LENGTH) + ToBE(MINOR, MINOR_LENGTH) + ToBE(0x29, OFFSET_LENGTH)
         + Hash(DATA) + ToBE(13, KEYSIZE_LENGTH) + KEY
  {
    var h := FinalHeader(KEY, DATA);
    assert EffectiveOffset(h) == 0x29;
    assert h.hash.value[..HASH_LENGTH] == Hash(DATA);
  }

  /** The encoded header: the prefix, the hash, key length 13, the key. */
  lemma FixtureHeader()
    ensures PutHeader(FinalHeader(KEY, DATA)).Success?
    ensures PutHeader(FinalHeader(KEY, DATA)).value.0 == PREFIX + Hash(DATA) + [0x00, 0x0d] + KEY
  {
    FixtureLayout();
    FixtureFields();
    PrefixParts();
  }

  /** The prefix is the magic number followed by the three numeric fields. */
  lemma PrefixParts()
    ensures MAGIC + [0x00, 0x00] + [0x00, 0x00] + [0x00, 0x00, 0x00, 0x29] == PREFIX
  {
    assert MAGIC + [0x00, 0x00] == [0x91, 0xc0, 0x00, 0x00];
    assert [0x91, 0xc0, 0x00, 0x00] + [0x00, 0x00] == [0x91, 0xc0, 0x00, 0x00, 0x00, 0x00];
  }

  /**
   * The bytes the output stream writes for the example: the header, then
   * the listed ciphertext; 77 bytes in all, 16 of them the hash.
   */
  lemma FixtureFile()
    ensures StreamOutput(KEY, [], DATA) == Success(PREFIX + Hash(DATA) + [0x00, 0x0d] + KEY + ENCRYPTED)
    ensures |PREFIX + Hash(DATA) + [0x00, 0x0d] + KEY + ENCRYPTED| == 77
  {
    StreamWritesFile(KEY, [], DATA);
    FixtureCiphertext();
    FixtureHeader();
  }
}
