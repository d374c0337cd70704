/**
 * `PicoFile`: random-access reading and writing of the data of a Pico file.
 * Positions are relative to the start of the data (`head.offset` in the
 * file), every byte is ciphered by its position in the data, and the hash
 * of the plaintext is kept by a message digest that is valid up to a
 * watermark.  The header, which holds the hash, is written last, at the
 * front of the file, by `finish`.
 *
 * The object is a value: every method is a function from the object before
 * the call to the object after it, or to the exception the call throws.
 */
module PicoFile {
  import opened Wrappers
  import opened Bytes
  import opened PicoFileOffsets
  import opened PicoHeader
  import opened Digest
  import opened RandomAccess

  /** The size of the blocks `_updateDigest` reads. */
  const BLOCK_SIZE: nat := 16384

  /**
   * A `PicoFile`: the backing file and its pointer, whether it is open, the
   * header, whether the header's hash is valid, the digest watermark
   * (`_digestvalidto`), and the bytes fed to the digest since its last reset.
   */
  datatype State = State(
    backing: Raf,
    open: bool,
    head: Header,
    hashValid: bool,
    digestValidTo: int,
    fed: seq<byte>)

  /** Nothing but the file pointer differs between `f` and `g`. */
  predicate OnlyPointerMoved(f: State, g: State)
  {
    g == f.(backing := Raf(f.backing.bytes, g.backing.pointer))
  }

  /** The object as the constructors find it: a freshly opened file, a reset digest, no header yet. */
  function Fresh(contents: seq<byte>): State
  {
    State(Raf(contents, 0), true, NewHeader, false, 0, [])
  }

  /** `_resetDigest`: a new digest, valid up to position 0. */
  function ResetDigest(f: State): (g: State)
    ensures g.fed == [] && g.digestValidTo == 0
    ensures g.backing == f.backing && g.open == f.open && g.head == f.head && g.hashValid == f.hashValid
  {
    f.(fed := [], digestValidTo := 0)
  }

  //--------------------------------------------------------------------------
  // Position and size, relative to the start of the data
  //--------------------------------------------------------------------------

  /** `position()`: the file pointer less the data offset.  A closed file throws. */
  function Position(f: State): (r: Result<int>)
    ensures r.Failure? <==> !f.open
    ensures r.Failure? ==> r.error == IO
    ensures r.Success? ==> r.value + f.head.offset == f.backing.pointer
  {
    if !f.open then Failure(IO) else Success(f.backing.pointer - f.head.offset)
  }

  /** `position(p)`: seeks the backing file to `p + head.offset`; `position()` then reads back `p`. */
  function SetPosition(f: State, p: int): (r: Result<State>)
    ensures r.Failure? <==> !f.open || p + f.head.offset < 0
    ensures r.Failure? ==> r.error == IO
    ensures r.Success? ==> OnlyPointerMoved(f, r.value) && r.value.backing.pointer == p + f.head.offset
    ensures r.Success? ==> Position(r.value) == Success(p)
  {
    if !f.open then Failure(IO)
    else
      var b :- Seek(f.backing, p + f.head.offset);
      Success(f.(backing := b))
  }

  /** `size()`: the length of the backing file less the data offset. */
  function Size(f: State): (r: Result<int>)
    ensures r.Failure? <==> !f.open
    ensures r.Failure? ==> r.error == IO
    ensures r.Success? ==> r.value + f.head.offset == |f.backing.bytes|
  {
    if !f.open then Failure(IO) else Success(|f.backing.bytes| - f.head.offset)
  }

  //--------------------------------------------------------------------------
  // Reading
  //--------------------------------------------------------------------------

  /** What `read(dst)` returns, the buffer afterwards and the object afterwards. */
  datatype ReadOut = ReadOut(count: int, dst: ByteBuffer, file: State)

  /**
   * `read(dst)`: reads up to `dst.remaining()` bytes at the file pointer and
   * deciphers each by its own data position.  A zero-limit buffer is
   * rejected; a closed file and the end of the file give -1.
   */
  function Read(f: State, dst: ByteBuffer): (r: Result<ReadOut>)
    requires dst.Valid()
    ensures dst.limit == 0 ==> r == Failure(IllegalArgument)
    ensures dst.limit > 0 && !f.open ==> r == Success(ReadOut(-1, dst, f))
    ensures dst.limit > 0 && f.open && dst.Remaining() == 0 ==> r == Success(ReadOut(0, dst, f))
    ensures dst.limit > 0 && f.open && dst.Remaining() > 0 && f.backing.pointer >= |f.backing.bytes| ==>
      r == Success(ReadOut(-1, dst, f))
    ensures dst.limit > 0 && f.open && dst.Remaining() > 0 && f.backing.pointer < |f.backing.bytes| ==>
      && (|f.head.key| == 0 ==> r == Failure(Arithmetic))
      && (|f.head.key| > 0 && f.backing.pointer >= f.head.offset ==> r.Success?)
      && (|f.head.key| > 0 ==>
            (r.Success? <==> CryptRange(f.head.key, ReadInto(f.backing, dst.Remaining()).data,
                                        f.backing.pointer - f.head.offset).Success?))
    ensures r.Success? ==> r.value.dst.Valid() && r.value.dst.limit == dst.limit && |r.value.dst.contents| == |dst.contents|
    ensures r.Success? && r.value.count <= 0 ==> r.value.dst == dst && r.value.file == f
    ensures r.Success? && r.value.count > 0 ==>
      var n := r.value.count;
      && |f.head.key| > 0
      && n <= dst.Remaining()
      && f.backing.pointer + n <= |f.backing.bytes|
      && (n == dst.Remaining() || f.backing.pointer + n == |f.backing.bytes|)
      && OnlyPointerMoved(f, r.value.file)
      && r.value.file.backing.pointer == f.backing.pointer + n
  {
    if dst.limit == 0 then Failure(IllegalArgument)
    else if !f.open then Success(ReadOut(-1, dst, f))
    else
      var here := f.backing.pointer - f.head.offset;
      var raw := ReadInto(f.backing, dst.Remaining());
      if raw.count > 0 then
        var plain :- CryptRange(f.head.key, raw.data, here);
        Success(ReadOut(raw.count, dst.Put(plain), f.(backing := raw.file)))
      else
        Success(ReadOut(raw.count, dst, f.(backing := raw.file)))
  }

  /** What a successful `read(dst)` puts in the buffer: the bytes at the file pointer, deciphered by their data positions. */
  lemma ReadDeciphers(f: State, dst: ByteBuffer)
    requires dst.Valid() && Read(f, dst).Success? && Read(f, dst).value.count > 0
    requires f.backing.pointer >= f.head.offset
    ensures |f.head.key| > 0 && f.backing.pointer + Read(f, dst).value.count <= |f.backing.bytes|
    ensures var n := Read(f, dst).value.count;
      Read(f, dst).value.dst == dst.Put(Cipher(f.head.key, f.backing.bytes[f.backing.pointer..f.backing.pointer + n],
                                               f.backing.pointer - f.head.offset))
  {
    var raw := ReadInto(f.backing, dst.Remaining());
    ReadPutsRaw(f, dst);
    assert raw.data == f.backing.bytes[f.backing.pointer..f.backing.pointer + raw.count];
  }

  /**
   * The buffer receives the raw bytes read, put through the per-byte
   * cipher loop from the data position of the file pointer.  This holds
   * for a pointer inside the header too, where the data position is
   * negative.
   */
  lemma ReadPutsRaw(f: State, dst: ByteBuffer)
    requires dst.Valid() && Read(f, dst).Success? && Read(f, dst).value.count > 0
    ensures var raw := ReadInto(f.backing, dst.Remaining());
      var plain := CryptRange(f.head.key, raw.data, f.backing.pointer - f.head.offset);
      && |f.head.key| > 0 && raw.count == Read(f, dst).value.count && |raw.data| == raw.count <= dst.Remaining()
      && plain.Success?
      && Read(f, dst).value.dst == dst.Put(plain.value)
  {
  }

  /**
   * `read()`: the next byte, deciphered.  The deciphered `byte` is widened
   * with its sign, so a plaintext byte 0xff comes back as -1, the same value
   * as the end of the file.
   */
  function ReadByte(f: State): (r: Result<(int, State)>)
    ensures !f.open ==> r == Success((-1, f))
    ensures f.open && f.backing.pointer >= |f.backing.bytes| ==> r == Success((-1, f))
    ensures f.open && f.backing.pointer < |f.backing.bytes| ==>
      var here := f.backing.pointer - f.head.offset;
      && (r.Success? <==> |f.head.key| > 0 && (here >= 0 || here % |f.head.key| == 0))
      && (r.Success? ==>
            && r.value.0 == SignedByte(f.backing.bytes[f.backing.pointer] ^ f.head.key[here % |f.head.key|])
            && OnlyPointerMoved(f, r.value.1)
            && r.value.1.backing.pointer == f.backing.pointer + 1)
  {
    if !f.open then Success((-1, f))
    else
      var here := f.backing.pointer - f.head.offset;
      var (val, b) := ReadNext(f.backing);
      if val >= 0 then
        ByteOfAsNat(f.backing.bytes[f.backing.pointer]);
        var c :- CryptAt(f.head.key, ByteOf(val), here);
        Success((SignedByte(c), f.(backing := b)))
      else
        Success((val, f.(backing := b)))
  }

  //--------------------------------------------------------------------------
  // The digest watermark
  //--------------------------------------------------------------------------

  /**
   * The loop of `_updateDigest`: while the watermark is below `pos`, read a
   * block, advance the watermark by the count `read` returns, and feed the
   * digest what `buf` has between its position and its limit, which is the
   * part of the block the read did NOT fill.  A read at the end of the file
   * returns -1, which moves the watermark back by one and leaves the file
   * pointer where it is, so the loop repeats forever: that is `Hangs`.
   */
  function DigestLoop(f: State, buf: ByteBuffer, pos: int): (r: Result<State>)
    requires f.open && buf.Valid() && buf.position == 0 && buf.limit == |buf.contents| == BLOCK_SIZE
    ensures r.Success? ==>
      && r.value.backing.bytes == f.backing.bytes
      && r.value.head == f.head && r.value.open && r.value.hashValid == f.hashValid
      && r.value.digestValidTo >= pos
    ensures f.digestValidTo >= pos ==> r == Success(f)
    decreases if f.backing.pointer < |f.backing.bytes| then |f.backing.bytes| - f.backing.pointer else 0
  {
    if f.digestValidTo >= pos then Success(f)
    else
      var out :- Read(f, buf);
      if out.count < 0 then Failure(Hangs)
      else
        var unread := out.dst.contents[out.dst.position..out.dst.limit];
        var g := out.file.(digestValidTo := f.digestValidTo + out.count, fed := f.fed + unread);
        DigestLoop(g, out.dst.Clear(), pos)
  }

  /**
   * `_updateDigest`: brings the digest up to the current position.  It
   * returns at once when the watermark is already there; otherwise it
   * resets the digest if the watermark is past the position, seeks to the
   * watermark and runs the loop, leaving the file pointer where the loop
   * stopped.
   */
  function UpdateDigest(f: State): (r: Result<State>)
    ensures !f.open ==> r == Failure(IO)
    ensures f.open && f.digestValidTo == f.backing.pointer - f.head.offset ==> r == Success(f)
    ensures r.Success? ==>
      && r.value.backing.bytes == f.backing.bytes
      && r.value.head == f.head && r.value.open && r.value.hashValid == f.hashValid
      && r.value.digestValidTo >= f.backing.pointer - f.head.offset
  {
    var pos :- Position(f);
    if f.digestValidTo == pos then Success(f)
    else
      var g := if f.digestValidTo > pos then ResetDigest(f) else f;
      var h :- SetPosition(g, g.digestValidTo);
      DigestLoop(h, Allocate(BLOCK_SIZE), pos)
  }

  //--------------------------------------------------------------------------
  // Writing
  //--------------------------------------------------------------------------

  /**
   * `truncate(size)`: sets the length of the backing file to `size` plus the
   * data offset (only while open), then always marks the hash invalid and
   * resets the digest.
   */
  function Truncate(f: State, size: int): (r: Result<State>)
    ensures r.Failure? <==> f.open && size + f.head.offset < 0
    ensures r.Success? ==>
      && !r.value.hashValid && r.value.digestValidTo == 0 && r.value.fed == []
      && r.value.head == f.head && r.value.open == f.open
    ensures r.Success? && f.open ==>
      && |r.value.backing.bytes| == size + f.head.offset
      && (forall i | 0 <= i < |r.value.backing.bytes| ::
            r.value.backing.bytes[i] == if i < |f.backing.bytes| then f.backing.bytes[i] else 0)
      && r.value.backing.pointer == if f.backing.pointer > size + f.head.offset then size + f.head.offset else f.backing.pointer
    ensures r.Success? && !f.open ==> r.value.backing == f.backing
  {
    var b :- if f.open then SetLength(f.backing, size + f.head.offset) else Success(f.backing);
    Success(ResetDigest(f.(backing := b, hashValid := false)))
  }

  /**
   * `write(src)`: writes the WHOLE backing array of `src`, whatever its
   * position and limit.  It first brings the digest up to the current
   * position, then feeds every plaintext byte to the digest, advances the
   * watermark by the count, and writes the bytes ciphered by their
   * positions counted from the position the call started at, at wherever
   * `_updateDigest` left the file pointer.  The hash is not marked invalid.
   */
  function Write(f: State, src: ByteBuffer): (r: Result<(int, State)>)
    requires src.Valid()
    ensures src.limit == 0 ==> r == Failure(IllegalArgument)
    ensures src.limit > 0 && !f.open ==> r == Success((-1, f))
    ensures src.limit > 0 && f.open && |f.head.key| > 0 && f.backing.pointer >= f.head.offset ==>
      (r.Success? <==> UpdateDigest(f).Success?)
    ensures r.Success? && src.limit > 0 && f.open ==>
      && UpdateDigest(f).Success?
      && var mid, g := UpdateDigest(f).value, r.value.1;
      && r.value.0 == |src.contents|
      && g.hashValid == f.hashValid && g.head == f.head && g.open
      && g.fed == mid.fed + src.contents
      && g.digestValidTo == mid.digestValidTo + |src.contents|
      && g.backing.pointer == mid.backing.pointer + |src.contents|
      && |g.backing.bytes| >= mid.backing.pointer + |src.contents|
    ensures r.Success? && src.limit > 0 && f.open && f.backing.pointer >= f.head.offset ==>
      var mid := UpdateDigest(f).value;
      && |f.head.key| > 0
      && r.value.1.backing.bytes == Overwrite(mid.backing.bytes, mid.backing.pointer,
           Cipher(f.head.key, src.contents, f.backing.pointer - f.head.offset))
  {
    if src.limit == 0 then Failure(IllegalArgument)
    else if !f.open then Success((-1, f))
    else
      var here := f.backing.pointer - f.head.offset;
      var data := src.contents;
      var g :- UpdateDigest(f);
      var encr :- CryptRange(g.head.key, data, here);
      Success((|data|, g.(fed := g.fed + data,
                          digestValidTo := g.digestValidTo + |data|,
                          backing := WriteOut(g.backing, encr))))
  }

  /**
   * `write(datum)`: writes the low byte of `datum`, ciphered by its
   * position.  The digest is fed when the position equals the watermark,
   * but the watermark is never advanced, and the hash is not marked invalid.
   */
  function WriteByte(f: State, datum: int): (r: Result<State>)
    ensures !f.open ==> r == Success(f)
    ensures f.open ==>
      var here := f.backing.pointer - f.head.offset;
      r.Success? <==> |f.head.key| > 0 && (here >= 0 || here % |f.head.key| == 0)
    ensures r.Success? && f.open ==>
      var here := f.backing.pointer - f.head.offset;
      && r.value.digestValidTo == f.digestValidTo
      && r.value.fed == (if here == f.digestValidTo then f.fed + [LowByte(datum)] else f.fed)
      && r.value.hashValid == f.hashValid && r.value.head == f.head && r.value.open
      && r.value.backing.pointer == f.backing.pointer + 1
  {
    if !f.open then Success(f)
    else
      var d := LowByte(datum);
      var here := f.backing.pointer - f.head.offset;
      var fed := if here == f.digestValidTo then f.fed + [d] else f.fed;
      var c := CryptAt(f.head.key, d, here);
      if c.Failure? then Failure(c.error)
      else Success(f.(fed := fed, backing := WriteOut(f.backing, [c.value])))
  }

  /** What `write(datum)` puts in the file: the low byte ciphered by its position, at the file pointer. */
  lemma WriteByteBytes(f: State, datum: int)
    requires f.open && WriteByte(f, datum).Success?
    ensures |f.head.key| > 0
    ensures WriteByte(f, datum).value.backing.bytes == Overwrite(f.backing.bytes, f.backing.pointer,
      [LowByte(datum) ^ f.head.key[(f.backing.pointer - f.head.offset) % |f.head.key|]])
  {
  }

  //--------------------------------------------------------------------------
  // Creating and opening
  //--------------------------------------------------------------------------

  /** The array `_readHeader` decodes: the file's first `FIXED_HEADER_LENGTH` bytes, zero-padded. */
  function FixedBlock(contents: seq<byte>): (b: seq<byte>)
    ensures |b| == FIXED_HEADER_LENGTH
    ensures forall i | 0 <= i < FIXED_HEADER_LENGTH :: b[i] == if i < |contents| then contents[i] else 0
  {
    if |contents| >= FIXED_HEADER_LENGTH then contents[..FIXED_HEADER_LENGTH]
    else contents + Zeros(FIXED_HEADER_LENGTH - |contents|)
  }

  /** The file holds every key byte the fixed header announces. */
  predicate KeyAvailable(contents: seq<byte>, keysize: nat)
  {
    keysize == 0 || FIXED_HEADER_LENGTH + keysize <= |contents|
  }

  /** The key bytes `_readHeader` reads: none for an empty key, else those after the fixed header. */
  function KeyBytes(contents: seq<byte>, keysize: nat): (k: seq<byte>)
    requires KeyAvailable(contents, keysize)
    ensures |k| == keysize
  {
    if keysize == 0 then [] else contents[FIXED_HEADER_LENGTH..FIXED_HEADER_LENGTH + keysize]
  }

  /** `_readHeader` succeeds on these contents: the magic is there, the fixed header decodes, the key is complete. */
  predicate HeaderReadable(contents: seq<byte>)
  {
    && |contents| >= MAGIC_LENGTH - MAGIC_OFFSET
    && PicoHeader.GetHeader(FixedBlock(contents)).Success?
    && KeyAvailable(contents, |PicoHeader.GetHeader(FixedBlock(contents)).value.key|)
  }

  /** The header `_readHeader` produces from readable contents. */
  function StoredHeader(contents: seq<byte>): (h: Header)
    requires HeaderReadable(contents)
    ensures h.hash.Some? && h.offset == PicoHeader.GetHeader(FixedBlock(contents)).value.offset
  {
    var h := PicoHeader.GetHeader(FixedBlock(contents)).value;
    h.(key := KeyBytes(contents, |h.key|))
  }

  /** `open` succeeds on these contents: the header reads and the data offset is not negative. */
  predicate Opens(contents: seq<byte>)
  {
    HeaderReadable(contents) && StoredHeader(contents).offset >= 0
  }

  /** The first read of `_readHeader`, from the start of the file, yields the fixed block once the magic is there. */
  lemma FixedRead(contents: seq<byte>)
    requires |contents| >= MAGIC_LENGTH - MAGIC_OFFSET
    ensures var fixed := ReadInto(Raf(contents, HEAD_START), FIXED_HEADER_LENGTH);
      && fixed.count >= MAGIC_LENGTH - MAGIC_OFFSET
      && fixed.data + Zeros(FIXED_HEADER_LENGTH - |fixed.data|) == FixedBlock(contents)
      && fixed.file.pointer == if |contents| < FIXED_HEADER_LENGTH then |contents| else FIXED_HEADER_LENGTH
  {
    var fixed := ReadInto(Raf(contents, HEAD_START), FIXED_HEADER_LENGTH);
    var padded := fixed.data + Zeros(FIXED_HEADER_LENGTH - |fixed.data|);
    forall i | 0 <= i < FIXED_HEADER_LENGTH
      ensures padded[i] == FixedBlock(contents)[i]
    {
    }
  }

  /** The second read of `_readHeader`, right after the fixed block, yields the whole key exactly when the file holds it. */
  lemma KeyRead(contents: seq<byte>, keysize: nat)
    requires |contents| >= MAGIC_LENGTH - MAGIC_OFFSET
    ensures var k := ReadInto(ReadInto(Raf(contents, HEAD_START), FIXED_HEADER_LENGTH).file, keysize);
      && k.count <= keysize
      && (k.count == keysize <==> KeyAvailable(contents, keysize))
      && (k.count == keysize ==> k.data == KeyBytes(contents, keysize) && k.file.bytes == contents)
  {
    FixedRead(contents);
  }

  /**
   * `_readHeader`: reads up to `FIXED_HEADER_LENGTH` bytes from the start of
   * the file into a zeroed array, demands at least the two magic bytes,
   * decodes the array, marks the hash valid, reads the key after what was
   * read, and demands all of it; then restores the file pointer.
   */
  function ReadHeader(f: State): (r: Result<State>)
    ensures r.Success? <==> HeaderReadable(f.backing.bytes)
    ensures |f.backing.bytes| < MAGIC_LENGTH - MAGIC_OFFSET ==> r == Failure(Pico(MissingMagic))
    ensures r.Success? ==> r.value == f.(head := StoredHeader(f.backing.bytes), hashValid := true)
  {
    var pos := f.backing.pointer;
    var start := f.backing.(pointer := HEAD_START);
    var fixed := ReadInto(start, FIXED_HEADER_LENGTH);
    var fixedhdr := fixed.data + Zeros(FIXED_HEADER_LENGTH - |fixed.data|);
    if fixed.count < MAGIC_LENGTH - MAGIC_OFFSET then Failure(Pico(MissingMagic))
    else
      FixedRead(f.backing.bytes);
      var head :- PicoHeader.GetHeader(fixedhdr);
      var keyRead := ReadInto(fixed.file, |head.key|);
      KeyRead(f.backing.bytes, |head.key|);
      if keyRead.count != |head.key| then Failure(Pico(IncompleteKey))
      else
        var back := keyRead.file.(pointer := pos);
        Success(f.(backing := back, head := head.(key := keyRead.data), hashValid := true))
  }

  /**
   * How `_readHeader` fails once the magic is there: with the decoder's
   * error when the fixed block does not decode, and with an incomplete-key
   * error when the file ends inside the key.
   */
  lemma ReadHeaderErrors(f: State)
    requires |f.backing.bytes| >= MAGIC_LENGTH - MAGIC_OFFSET
    ensures var fixed := PicoHeader.GetHeader(FixedBlock(f.backing.bytes));
      && (fixed.Failure? ==> ReadHeader(f) == Failure(fixed.error))
      && (fixed.Success? && !KeyAvailable(f.backing.bytes, |fixed.value.key|) ==> ReadHeader(f) == Failure(Pico(IncompleteKey)))
  {
    FixedRead(f.backing.bytes);
    var fixed := PicoHeader.GetHeader(FixedBlock(f.backing.bytes));
    if fixed.Success? {
      KeyRead(f.backing.bytes, |fixed.value.key|);
    }
  }

  /**
   * `open(file)`: reads the header of an existing file, marks its hash valid
   * and positions at the start of the data.  `None` is a null file.
   */
  function Open(file: Option<seq<byte>>): (r: Result<State>)
    ensures file.None? ==> r == Failure(NullPointer)
    ensures file.Some? && |file.value| < MAGIC_LENGTH - MAGIC_OFFSET ==> r == Failure(Pico(MissingMagic))
    ensures r.Success? <==> file.Some? && Opens(file.value)
    ensures r.Success? ==>
      var c, g := file.value, r.value;
      && g.open && g.hashValid && g.fed == [] && g.digestValidTo == 0
      && g.backing.bytes == c
      && g.head == StoredHeader(c)
      && Position(g) == Success(0)
  {
    if file.None? then Failure(NullPointer)
    else
      var f :- ReadHeader(Fresh(file.value));
      SetPosition(f, 0)
  }

  /**
   * `create(file, key)`: rejects a null file, a null key and an empty key;
   * empties the file, builds a header holding the key, and positions at the
   * start of the data.  Nothing is written yet.
   */
  function Create(file: Option<seq<byte>>, key: Option<seq<byte>>): (r: Result<State>)
    ensures file.None? || key.None? ==> r == Failure(NullPointer)
    ensures file.Some? && key.Some? && |key.value| == 0 ==> r == Failure(IllegalArgument)
    ensures r.Success? <==> file.Some? && key.Some? && |key.value| > 0
    ensures r.Success? ==>
      && r.value.backing.bytes == []
      && Position(r.value) == Success(0)
      && r.value.head == Header(None, KEY_OFFSET + |key.value|, key.value)
      && r.value.open && !r.value.hashValid && r.value.digestValidTo == 0 && r.value.fed == []
  {
    if file.None? || key.None? then Failure(NullPointer)
    else if |key.value| == 0 then Failure(IllegalArgument)
    else
      var f := Fresh(file.value);
      var emptied := SetLength(f.backing, 0).value;
      var head := SetKey(NewHeader, key).value;
      SetPosition(f.(backing := emptied, head := head), 0)
  }

  //--------------------------------------------------------------------------
  // Header, finish and close
  //--------------------------------------------------------------------------

  /** `getHeader()`: a copy of the header, without the hash while it is not valid. */
  function GetHeader(f: State): (r: Result<Header>)
    ensures r.Failure? <==> f.head.hash.None?
    ensures r.Failure? ==> r.error == NullPointer
    ensures r.Success? ==>
      && r.value.key == f.head.key && r.value.offset == f.head.offset
      && r.value.hash == (if f.hashValid then f.head.hash else None)
  {
    var h :- Clone(f.head);
    Success(if f.hashValid then h else h.(hash := None))
  }

  /**
   * The hash computation of `finish`: seek to the end of the file, bring
   * the digest up to there, store its digest in the header, mark the hash
   * valid and reset the digest.
   */
  function ComputeHash(f: State): (r: Result<State>)
    requires f.open
    ensures r.Success? <==> UpdateDigest(f.(backing := f.backing.(pointer := |f.backing.bytes|))).Success?
    ensures r.Success? ==>
      r.value.head.hash == Some(Hash(UpdateDigest(f.(backing := f.backing.(pointer := |f.backing.bytes|))).value.fed))
    ensures r.Success? ==>
      && r.value.hashValid && r.value.open
      && r.value.backing.bytes == f.backing.bytes
      && r.value.head.key == f.head.key && r.value.head.offset == f.head.offset
      && r.value.head.hash.Some? && |r.value.head.hash.value| == HASH_LENGTH
      && r.value.fed == [] && r.value.digestValidTo == 0
  {
    var atEnd := f.(backing := f.backing.(pointer := |f.backing.bytes|));
    var g :- UpdateDigest(atEnd);
    Success(ResetDigest(g.(head := g.head.(hash := Some(Hash(g.fed))), hashValid := true)))
  }

  /**
   * The header-writing part of `finish`: encode the header (which repairs
   * its offset), write it at `HEAD_START`, and restore the file pointer to
   * `pos`, where it was when `finish` began.
   */
  function WriteHeader(g: State, pos: nat): (r: Result<State>)
    ensures r.Success? <==> g.head.hash.Some? && |g.head.hash.value| >= HASH_LENGTH
    ensures r.Success? ==>
      && r.value.head == g.head.(offset := EffectiveOffset(g.head))
      && PutHeader(r.value.head) == PutHeader(g.head)
      && r.value == g.(head := r.value.head,
                       backing := Raf(Overwrite(g.backing.bytes, HEAD_START, PutHeader(r.value.head).value.0),
                                      pos))
  {
    var enc :- PutHeader(g.head);
    PutHeaderStable(g.head);
    var written := WriteOut(g.backing.(pointer := HEAD_START), enc.0);
    Success(g.(head := enc.1, backing := written.(pointer := pos)))
  }

  /**
   * `finish()`: when the hash is not valid, computes it; then always writes
   * the encoded header at `HEAD_START` and restores the file pointer.  A
   * closed file is left alone.
   */
  function Finish(f: State): (r: Result<State>)
    ensures !f.open ==> r == Success(f)
    ensures f.open && f.hashValid ==> r == WriteHeader(f, f.backing.pointer)
    ensures r.Success? && f.open ==>
      && r.value.open && r.value.hashValid
      && r.value.head.key == f.head.key
      && r.value.head.offset == EffectiveOffset(f.head)
      && r.value.backing.pointer == f.backing.pointer
    ensures r.Success? && f.open && f.hashValid ==> r.value.head.hash == f.head.hash
    ensures r.Success? && f.open && !f.hashValid ==>
      && ComputeHash(f).Success?
      && r.value.head.hash == ComputeHash(f).value.head.hash
      && r.value.fed == [] && r.value.digestValidTo == 0
  {
    if !f.open then Success(f)
    else
      var pos := f.backing.pointer;
      if f.hashValid then WriteHeader(f, pos)
      else
        var g :- ComputeHash(f);
        WriteHeader(g, pos)
  }

  /**
   * What `finish()` leaves in the file: the contents it found, with the
   * encoding of the final header written over the front.
   */
  lemma FinishWritesHeader(f: State)
    requires f.open
    ensures Finish(f).Success? ==>
      && PutHeader(Finish(f).value.head).Success?
      && Finish(f).value.backing.bytes == Overwrite(f.backing.bytes, HEAD_START, PutHeader(Finish(f).value.head).value.0)
  {
    if !f.hashValid && Finish(f).Success? {
      var g := ComputeHash(f).value;
      assert Finish(f) == WriteHeader(g, f.backing.pointer);
    }
  }

  /** `close()`: finishes, then marks the file closed.  A closed file is left alone. */
  function Close(f: State): (r: Result<State>)
    ensures !f.open ==> r == Success(f)
    ensures f.open ==> (r.Success? <==> Finish(f).Success?)
    ensures r.Success? ==> !r.value.open
    ensures r.Success? && f.open ==> OnlyPointerMoved(Finish(f).value.(open := false), r.value)
  {
    if !f.open then Success(f)
    else
      var g :- Finish(f);
      Success(g.(open := false))
  }
}
