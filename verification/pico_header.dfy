/**
 * The Pico header: the hash of the plaintext, the offset of the data, and
 * the key; its binary codec; and the repeating-key XOR cipher.
 */
module PicoHeader {
  import opened Wrappers
  import opened Bytes
  import opened PicoFileOffsets

  /**
   * A header.  `hash` is `None` while the Java field is null; `offset` is
   * the Java `long`.
   */
  datatype Header = Header(hash: Option<seq<byte>>, offset: int, key: seq<byte>)

  /**
   * `new PicoHeader()`: no hash and offset 0.  Its null key is replaced by
   * `setKey` or `getHeader` before anything can observe it, so it is
   * represented here by the empty key.
   */
  const NewHeader: Header := Header(None, 0, [])

  /** The `len` bytes of `data` at `off`. */
  function Field(data: seq<byte>, off: nat, len: nat): (f: seq<byte>)
    requires off + len <= |data|
    ensures |f| == len
    ensures forall i | 0 <= i < len :: f[i] == data[off + i]
  {
    data[off..off + len]
  }

  //--------------------------------------------------------------------------
  // setKey and clone
  //--------------------------------------------------------------------------

  /**
   * `setKey`: rejects a null or empty key; otherwise stores the key and
   * points the offset just past it.  The hash is untouched.
   */
  function SetKey(h: Header, key: Option<seq<byte>>): (r: Result<Header>)
    ensures key.None? ==> r == Failure(NullPointer)
    ensures key.Some? && |key.value| == 0 ==> r == Failure(IllegalArgument)
    ensures r.Success? <==> key.Some? && |key.value| > 0
    ensures r.Success? ==>
      && r.value.key == key.value
      && r.value.offset == KEY_OFFSET + |key.value|
      && r.value.hash == h.hash
  {
    if key.None? then Failure(NullPointer)
    else if |key.value| == 0 then Failure(IllegalArgument)
    else Success(h.(key := key.value, offset := KEY_OFFSET + |key.value|))
  }

  /** `clone`: a copy of the header; the copy dereferences the hash, so a header without one throws. */
  function Clone(h: Header): (r: Result<Header>)
    ensures r.Failure? <==> h.hash.None?
    ensures r.Failure? ==> r.error == NullPointer
    ensures r.Success? ==> r.value == h
  {
    if h.hash.None? then Failure(NullPointer) else Success(h)
  }

  //--------------------------------------------------------------------------
  // The cipher
  //--------------------------------------------------------------------------

  /** `crypt` for a non-empty key at a non-negative data position. */
  function Crypt(key: seq<byte>, datum: byte, position: nat): byte
    requires |key| > 0
  {
    datum ^ key[position % |key|]
  }

  /** Enciphering twice at the same position gives the byte back. */
  lemma CryptInvolution(key: seq<byte>, datum: byte, position: nat)
    requires |key| > 0
    ensures Crypt(key, Crypt(key, datum, position), position) == datum
  {
  }

  /**
   * `crypt` exactly as Java evaluates it: `position % key.length` throws
   * for an empty key, and a negative position with a non-zero (negative)
   * remainder indexes outside the key.
   */
  function CryptAt(key: seq<byte>, datum: byte, position: int): (r: Result<byte>)
    ensures |key| == 0 ==> r == Failure(Arithmetic)
    ensures |key| > 0 ==> (r.Success? <==> position >= 0 || position % |key| == 0)
    ensures |key| > 0 && r.Failure? ==> r.error == IndexOutOfBounds
    ensures r.Success? ==> |key| > 0 && r.value == datum ^ key[position % |key|]
  {
    if |key| == 0 then Failure(Arithmetic)
    else
      var i := JavaRem(position, |key|);
      if i < 0 then Failure(IndexOutOfBounds) else Success(datum ^ key[i])
  }

  /** Where it is defined, `CryptAt` is `Crypt`. */
  lemma CryptAtIsCrypt(key: seq<byte>, datum: byte, position: nat)
    requires |key| > 0
    ensures CryptAt(key, datum, position) == Success(Crypt(key, datum, position))
  {
  }

  /** `data` enciphered byte by byte, the byte at index `i` at position `start + i`. */
  function Cipher(key: seq<byte>, data: seq<byte>, start: nat): (r: seq<byte>)
    requires |key| > 0
    ensures |r| == |data|
  {
    seq(|data|, i requires 0 <= i < |data| => Crypt(key, data[i], start + i))
  }

  /** Deciphering what was enciphered at the same positions gives the data back. */
  lemma CipherInvolution(key: seq<byte>, data: seq<byte>, start: nat)
    requires |key| > 0
    ensures Cipher(key, Cipher(key, data, start), start) == data
  {
    forall i | 0 <= i < |data|
      ensures Cipher(key, Cipher(key, data, start), start)[i] == data[i]
    {
      CryptInvolution(key, data[i], start + i);
    }
  }

  /** Enciphering a concatenation enciphers each part at its own positions. */
  lemma CipherAppend(key: seq<byte>, a: seq<byte>, b: seq<byte>, start: nat)
    requires |key| > 0
    ensures Cipher(key, a + b, start) == Cipher(key, a, start) + Cipher(key, b, start + |a|)
  {
  }

  /** Enciphering one more byte appends that byte enciphered at the next position. */
  lemma CipherSnoc(key: seq<byte>, a: seq<byte>, x: byte, start: nat)
    requires |key| > 0
    ensures Cipher(key, a + [x], start) == Cipher(key, a, start) + [Crypt(key, x, start + |a|)]
  {
    CipherAppend(key, a, [x], start);
  }

  /**
   * The per-byte cipher loops of `read` and `write`: each byte is ciphered at
   * `start` plus its index, and the first byte whose `crypt` throws makes
   * the whole call throw.
   */
  function CryptRange(key: seq<byte>, data: seq<byte>, start: int): (r: Result<seq<byte>>)
    ensures |data| == 0 ==> r == Success([])
    ensures |data| > 0 && |key| == 0 ==> r == Failure(Arithmetic)
    ensures |data| > 0 && |key| > 0 && start < 0 && start % |key| != 0 ==> r == Failure(IndexOutOfBounds)
    ensures |key| > 0 && start >= 0 ==> r == Success(Cipher(key, data, start))
    ensures r.Success? ==> |r.value| == |data|
    ensures r.Success? && |data| > 0 ==> |key| > 0
    decreases |data|
  {
    if |data| == 0 then Success([])
    else
      var c :- CryptAt(key, data[0], start);
      var rest :- CryptRange(key, data[1..], start + 1);
      assert |key| > 0 && start >= 0 ==> Cipher(key, data, start) == [c] + Cipher(key, data[1..], start + 1);
      Success([c] + rest)
  }

  /**
   * The per-byte loop at any start, negative ones included: it succeeds
   * exactly when every byte's `crypt` does, and then each byte is that
   * `crypt`'s result.
   */
  lemma {:induction false} CryptRangeBytes(key: seq<byte>, data: seq<byte>, start: int)
    ensures CryptRange(key, data, start).Success? <==>
      forall i | 0 <= i < |data| :: CryptAt(key, data[i], start + i).Success?
    ensures CryptRange(key, data, start).Success? ==>
      forall i | 0 <= i < |data| :: CryptRange(key, data, start).value[i] == CryptAt(key, data[i], start + i).value
    decreases |data|
  {
    if |data| > 0 {
      var tail := data[1..];
      CryptRangeBytes(key, tail, start + 1);
      var head := CryptAt(key, data[0], start);
      var rest := CryptRange(key, tail, start + 1);
      if head.Failure? {
        assert !CryptAt(key, data[0], start + 0).Success?;
      } else if rest.Failure? {
        var j :| 0 <= j < |tail| && !CryptAt(key, tail[j], start + 1 + j).Success?;
        assert data[j + 1] == tail[j];
        assert !CryptAt(key, data[j + 1], start + (j + 1)).Success?;
      } else {
        assert CryptRange(key, data, start) == Success([head.value] + rest.value);
        forall i | 0 <= i < |data|
          ensures CryptAt(key, data[i], start + i).Success?
          ensures CryptRange(key, data, start).value[i] == CryptAt(key, data[i], start + i).value
        {
          if i > 0 {
            assert data[i] == tail[i - 1];
          }
        }
      }
    }
  }

  //--------------------------------------------------------------------------
  // getHeader: decoding the fixed header
  //--------------------------------------------------------------------------

  /**
   * The version gate exactly as written.  Its two conjuncts demand both
   * `major > MAJOR` and `major == MAJOR`, so it never rejects anything.
   */
  function VersionRejected(major: int, minor: int): (rejected: bool)
    ensures !rejected
  {
    major > MAJOR && (major == MAJOR && minor > MINOR)
  }

  /** The decoded key size, a signed `short`. */
  function KeySizeField(data: seq<byte>): (n: int)
    requires |data| >= FIXED_HEADER_LENGTH
  {
    SignedBE(Field(data, KEYSIZE_OFFSET, KEYSIZE_LENGTH))
  }

  /** The decoded data offset, a signed `int`. */
  function OffsetField(data: seq<byte>): (n: int)
    requires |data| >= FIXED_HEADER_LENGTH
  {
    SignedBE(Field(data, OFFSET_OFFSET, OFFSET_LENGTH))
  }

  predicate MagicMatches(data: seq<byte>)
    requires |data| >= FIXED_HEADER_LENGTH
  {
    Field(data, MAGIC_OFFSET, MAGIC_LENGTH) == MAGIC
  }

  /**
   * `getHeader`: decodes the fixed header.  The key is allocated with the
   * decoded length but left zero-filled; the caller reads it.
   */
  function GetHeader(data: seq<byte>): (r: Result<Header>)
    ensures |data| < FIXED_HEADER_LENGTH ==> r == Failure(Pico(HeaderTooShort))
    ensures |data| >= FIXED_HEADER_LENGTH && !MagicMatches(data) ==> r == Failure(Pico(BadMagic))
    ensures |data| >= FIXED_HEADER_LENGTH && MagicMatches(data) && KeySizeField(data) < 0 ==>
      r == Failure(NegativeArraySize)
    ensures r.Success? <==> |data| >= FIXED_HEADER_LENGTH && MagicMatches(data) && KeySizeField(data) >= 0
    ensures r.Success? ==>
      && r.value.offset == OffsetField(data)
      && r.value.hash == Some(Field(data, HASH_OFFSET, HASH_LENGTH))
      && r.value.key == Zeros(KeySizeField(data))
  {
    if |data| < FIXED_HEADER_LENGTH then Failure(Pico(HeaderTooShort))
    else if !MagicMatches(data) then Failure(Pico(BadMagic))
    else
      var major := SignedBE(Field(data, MAJOR_OFFSET, MAJOR_LENGTH));
      var minor := SignedBE(Field(data, MINOR_OFFSET, MINOR_LENGTH));
      if VersionRejected(major, minor) then
        assert false;
        Failure(Pico(UnsupportedVersion))
      else
        var keysize := KeySizeField(data);
        if keysize < 0 then Failure(NegativeArraySize)
        else Success(Header(Some(Field(data, HASH_OFFSET, HASH_LENGTH)), OffsetField(data), Zeros(keysize)))
  }

  /**
   * The version fields are read and thrown away: replacing them by any
   * other bytes, for instance a newer major version, changes nothing.
   */
  lemma VersionIgnored(data: seq<byte>, version: seq<byte>)
    requires |data| >= FIXED_HEADER_LENGTH
    requires |version| == MAJOR_LENGTH + MINOR_LENGTH
    ensures GetHeader(data[..MAJOR_OFFSET] + version + data[OFFSET_OFFSET..]) == GetHeader(data)
  {
    var d := data[..MAJOR_OFFSET] + version + data[OFFSET_OFFSET..];
    assert Field(d, MAGIC_OFFSET, MAGIC_LENGTH) == Field(data, MAGIC_OFFSET, MAGIC_LENGTH);
    assert Field(d, OFFSET_OFFSET, OFFSET_LENGTH) == Field(data, OFFSET_OFFSET, OFFSET_LENGTH);
    assert Field(d, HASH_OFFSET, HASH_LENGTH) == Field(data, HASH_OFFSET, HASH_LENGTH);
    assert Field(d, KEYSIZE_OFFSET, KEYSIZE_LENGTH) == Field(data, KEYSIZE_OFFSET, KEYSIZE_LENGTH);
  }

  /** `getHeader` looks at the fixed part only: whatever follows it (the key, the data) changes nothing. */
  lemma GetHeaderReadsFixedPart(data: seq<byte>)
    requires |data| >= FIXED_HEADER_LENGTH
    ensures GetHeader(data[..FIXED_HEADER_LENGTH]) == GetHeader(data)
  {
    var d := data[..FIXED_HEADER_LENGTH];
    assert Field(d, MAGIC_OFFSET, MAGIC_LENGTH) == Field(data, MAGIC_OFFSET, MAGIC_LENGTH);
    assert Field(d, OFFSET_OFFSET, OFFSET_LENGTH) == Field(data, OFFSET_OFFSET, OFFSET_LENGTH);
    assert Field(d, HASH_OFFSET, HASH_LENGTH) == Field(data, HASH_OFFSET, HASH_LENGTH);
    assert Field(d, KEYSIZE_OFFSET, KEYSIZE_LENGTH) == Field(data, KEYSIZE_OFFSET, KEYSIZE_LENGTH);
  }

  //--------------------------------------------------------------------------
  // putHeader: encoding the whole header
  //--------------------------------------------------------------------------

  /** The offset `putHeader` stores: a non-positive offset is replaced by the end of the key. */
  function EffectiveOffset(h: Header): (off: int)
    ensures off > 0
    ensures h.offset > 0 ==> off == h.offset
    ensures h.offset <= 0 ==> off == KEY_OFFSET + |h.key|
  {
    if h.offset <= 0 then KEY_OFFSET + |h.key| else h.offset
  }

  /**
   * `putHeader`: the header as bytes, and the header itself, whose offset
   * the call repairs as a side effect.  A missing hash throws.
   */
  function PutHeader(h: Header): (r: Result<(seq<byte>, Header)>)
    ensures h.hash.None? ==> r == Failure(NullPointer)
    ensures r.Success? <==> h.hash.Some? && |h.hash.value| >= HASH_LENGTH
    ensures r.Success? ==>
      var (bytes, h') := r.value;
      && |bytes| == FIXED_HEADER_LENGTH + |h.key|
      && Field(bytes, MAGIC_OFFSET, MAGIC_LENGTH) == MAGIC
      && Field(bytes, MAJOR_OFFSET, MAJOR_LENGTH) == ToBE(MAJOR, MAJOR_LENGTH)
      && Field(bytes, MINOR_OFFSET, MINOR_LENGTH) == ToBE(MINOR, MINOR_LENGTH)
      && SignedBE(Field(bytes, MAJOR_OFFSET, MAJOR_LENGTH)) == MAJOR
      && SignedBE(Field(bytes, MINOR_OFFSET, MINOR_LENGTH)) == MINOR
      && Field(bytes, OFFSET_OFFSET, OFFSET_LENGTH) == ToBE(EffectiveOffset(h), OFFSET_LENGTH)
      && Field(bytes, HASH_OFFSET, HASH_LENGTH) == h.hash.value[..HASH_LENGTH]
      && Field(bytes, KEYSIZE_OFFSET, KEYSIZE_LENGTH) == ToBE(|h.key|, KEYSIZE_LENGTH)
      && bytes[KEY_OFFSET..] == h.key
      && h' == h.(offset := EffectiveOffset(h))
  {
    if h.hash.None? then Failure(NullPointer)
    else if |h.hash.value| < HASH_LENGTH then Failure(IndexOutOfBounds)
    else
      var off := EffectiveOffset(h);
      var major := ToBE(MAJOR, MAJOR_LENGTH);
      var minor := ToBE(MINOR, MINOR_LENGTH);
      var offset := ToBE(off, OFFSET_LENGTH);
      var hash := h.hash.value[..HASH_LENGTH];
      var keysize := ToBE(|h.key|, KEYSIZE_LENGTH);
      var bytes := MAGIC + major + minor + offset + hash + keysize + h.key;
      assert Field(bytes, MAGIC_OFFSET, MAGIC_LENGTH) == MAGIC;
      assert Field(bytes, MAJOR_OFFSET, MAJOR_LENGTH) == major;
      assert Field(bytes, MINOR_OFFSET, MINOR_LENGTH) == minor;
      assert Field(bytes, OFFSET_OFFSET, OFFSET_LENGTH) == offset;
      assert Field(bytes, HASH_OFFSET, HASH_LENGTH) == hash;
      assert Field(bytes, KEYSIZE_OFFSET, KEYSIZE_LENGTH) == keysize;
      assert bytes[KEY_OFFSET..] == h.key;
      SignedRoundTrip(MAJOR, MAJOR_LENGTH);
      SignedRoundTrip(MINOR, MINOR_LENGTH);
      Success((bytes, h.(offset := off)))
  }

  /**
   * Round trip: a header whose hash has `HASH_LENGTH` bytes, whose key length
   * fits a `short` and whose offset fits an `int` decodes to the same hash,
   * the stored offset and a key buffer of the right length, and the bytes
   * after the fixed header are the key.
   */
  lemma {:induction false} HeaderRoundTrip(h: Header)
    requires h.hash.Some? && |h.hash.value| == HASH_LENGTH
    requires |h.key| < 0x8000
    requires h.offset < 0x8000_0000
    ensures PutHeader(h).Success?
    ensures GetHeader(PutHeader(h).value.0) == Success(Header(h.hash, EffectiveOffset(h), Zeros(|h.key|)))
    ensures PutHeader(h).value.0[FIXED_HEADER_LENGTH..] == h.key
  {
    var bytes := PutHeader(h).value.0;
    EncodedFields(h);
    assert GetHeader(bytes).Success?;
  }

  lemma EncodedFields(h: Header)
    requires h.hash.Some? && |h.hash.value| == HASH_LENGTH
    requires |h.key| < 0x8000
    requires h.offset < 0x8000_0000
    ensures PutHeader(h).Success?
    ensures |PutHeader(h).value.0| >= FIXED_HEADER_LENGTH
    ensures MagicMatches(PutHeader(h).value.0)
    ensures KeySizeField(PutHeader(h).value.0) == |h.key|
    ensures OffsetField(PutHeader(h).value.0) == EffectiveOffset(h)
    ensures Field(PutHeader(h).value.0, HASH_OFFSET, HASH_LENGTH) == h.hash.value
  {
    var bytes := PutHeader(h).value.0;
    assert KeySizeField(bytes) == |h.key| by {
      Pow256Values();
      SignedRoundTrip(|h.key|, KEYSIZE_LENGTH);
    }
    assert OffsetField(bytes) == EffectiveOffset(h) by {
      Pow256Values();
      SignedRoundTrip(EffectiveOffset(h), OFFSET_LENGTH);
    }
    assert h.hash.value[..HASH_LENGTH] == h.hash.value;
  }

  /**
   * Encoding the repaired header again gives the same bytes and leaves the
   * header as it is, so a second `putHeader` writes identical output.
   */
  lemma PutHeaderStable(h: Header)
    requires h.hash.Some? && |h.hash.value| >= HASH_LENGTH
    ensures PutHeader(PutHeader(h).value.1) == Success((PutHeader(h).value.0, PutHeader(h).value.1))
  {
  }
}
