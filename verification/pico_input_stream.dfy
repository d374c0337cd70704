/**
 * `PicoInputStream`: a sequential reader.  The constructor reads the fixed
 * header and the key from the wrapped stream; every later byte is
 * deciphered by its position, counted from the first byte after the key.
 * The wrapped stream is modelled as one that delivers every byte it still
 * holds on each bulk read, as an in-memory stream does.
 */
module PicoInputStream {
  import opened Wrappers
  import opened Bytes
  import opened PicoFileOffsets
  import opened PicoHeader
  import opened RandomAccess
  import PicoFile

  /** The stream: the wrapped stream (its bytes and how far it has been read), the header, and the data position. */
  datatype InStream = InStream(source: Raf, head: Header, position: nat)

  /**
   * Where the data starts in the wrapped stream: right after the key, or at
   * the end of a stream shorter than the fixed header.  The data offset
   * stored in the header plays no part.
   */
  function DataStart(contents: seq<byte>): (n: nat)
    requires PicoFile.HeaderReadable(contents)
    ensures n <= |contents|
  {
    if |contents| < FIXED_HEADER_LENGTH then |contents|
    else FIXED_HEADER_LENGTH + |PicoFile.StoredHeader(contents).key|
  }

  /**
   * The constructor and `readHeader`: a null stream throws; a read of the
   * fixed header that yields fewer than the two magic bytes throws; the
   * zero-padded fixed header is decoded; the key is read from what follows,
   * and a short key throws.  This accepts exactly the contents that
   * `PicoFile` accepts when it reads a header.
   */
  function Construct(stream: Option<seq<byte>>): (r: Result<InStream>)
    ensures stream.None? ==> r == Failure(NullPointer)
    ensures stream.Some? && |stream.value| < MAGIC_LENGTH - MAGIC_OFFSET ==> r == Failure(Pico(MissingMagic))
    ensures r.Success? ==> r.value.position == 0 && r.value.source.bytes == stream.value
  {
    if stream.None? then Failure(NullPointer)
    else
      var c := stream.value;
      var fixed := ReadInto(Raf(c, 0), FIXED_HEADER_LENGTH);
      if fixed.count < MAGIC_LENGTH - MAGIC_OFFSET then Failure(Pico(MissingMagic))
      else
        PicoFile.FixedRead(c);
        var head :- PicoHeader.GetHeader(fixed.data + Zeros(FIXED_HEADER_LENGTH - |fixed.data|));
        var keyRead := ReadInto(fixed.file, |head.key|);
        PicoFile.KeyRead(c, |head.key|);
        if keyRead.count < |head.key| then Failure(Pico(IncompleteKey))
        else Success(InStream(keyRead.file, head.(key := keyRead.data), 0))
  }

  /**
   * The constructor reads headers exactly as `PicoFile`'s `_readHeader`
   * does: it accepts the same contents, fails with the same error
   * otherwise, and yields the same header, leaving the wrapped stream right
   * after the key.  `PicoFile.open` accepts less; see
   * `NegativeOffsetStreamOnly`.
   */
  lemma ConstructReadsHeader(c: seq<byte>)
    ensures Construct(Some(c)).Success? <==> PicoFile.HeaderReadable(c)
    ensures Construct(Some(c)).Failure? ==> PicoFile.ReadHeader(PicoFile.Fresh(c)) == Failure(Construct(Some(c)).error)
    ensures Construct(Some(c)).Success? ==>
      && Construct(Some(c)).value.head == PicoFile.StoredHeader(c)
      && Construct(Some(c)).value.source == Raf(c, DataStart(c))
  {
    if |c| >= MAGIC_LENGTH - MAGIC_OFFSET {
      PicoFile.ReadHeaderErrors(PicoFile.Fresh(c));
      var decoded := PicoHeader.GetHeader(PicoFile.FixedBlock(c));
      if decoded.Failure? {
        ConstructDecodeFails(c);
      } else if !PicoFile.KeyAvailable(c, |decoded.value.key|) {
        ConstructKeyShort(c);
      } else {
        ConstructFindsHeader(c);
      }
    }
  }

  /**
   * A readable header whose stored data offset is negative: the stream,
   * which never uses the offset, accepts it, while `PicoFile.open` throws,
   * because its `position(0)` seeks to the negative offset.
   */
  lemma NegativeOffsetStreamOnly(c: seq<byte>)
    requires PicoFile.HeaderReadable(c) && PicoFile.StoredHeader(c).offset < 0
    ensures Construct(Some(c)).Success?
    ensures PicoFile.Open(Some(c)).Failure?
  {
    ConstructReadsHeader(c);
  }

  /** A fixed block that does not decode makes the constructor throw the decoder's error. */
  lemma ConstructDecodeFails(c: seq<byte>)
    requires |c| >= MAGIC_LENGTH - MAGIC_OFFSET && PicoHeader.GetHeader(PicoFile.FixedBlock(c)).Failure?
    ensures Construct(Some(c)) == Failure(PicoHeader.GetHeader(PicoFile.FixedBlock(c)).error)
  {
    var fixed := ReadInto(Raf(c, 0), FIXED_HEADER_LENGTH);
    PicoFile.FixedRead(c);
    assert fixed.data + Zeros(FIXED_HEADER_LENGTH - |fixed.data|) == PicoFile.FixedBlock(c);
  }

  /** A stream that ends inside the key makes the constructor throw. */
  lemma ConstructKeyShort(c: seq<byte>)
    requires |c| >= MAGIC_LENGTH - MAGIC_OFFSET && PicoHeader.GetHeader(PicoFile.FixedBlock(c)).Success?
    requires !PicoFile.KeyAvailable(c, |PicoHeader.GetHeader(PicoFile.FixedBlock(c)).value.key|)
    ensures Construct(Some(c)) == Failure(Pico(IncompleteKey))
  {
    var fixed := ReadInto(Raf(c, 0), FIXED_HEADER_LENGTH);
    PicoFile.FixedRead(c);
    var block := fixed.data + Zeros(FIXED_HEADER_LENGTH - |fixed.data|);
    assert block == PicoFile.FixedBlock(c);
    var head := PicoHeader.GetHeader(block).value;
    PicoFile.KeyRead(c, |head.key|);
  }

  /** On readable contents the constructor holds `_readHeader`'s header and stands right after the key. */
  lemma ConstructFindsHeader(c: seq<byte>)
    requires PicoFile.HeaderReadable(c)
    ensures Construct(Some(c)).Success?
    ensures Construct(Some(c)).value.head == PicoFile.StoredHeader(c)
    ensures Construct(Some(c)).value.source == Raf(c, DataStart(c))
  {
    var fixed := ReadInto(Raf(c, 0), FIXED_HEADER_LENGTH);
    PicoFile.FixedRead(c);
    var block := fixed.data + Zeros(FIXED_HEADER_LENGTH - |fixed.data|);
    assert block == PicoFile.FixedBlock(c);
    var head := PicoHeader.GetHeader(block).value;
    PicoFile.KeyRead(c, |head.key|);
    var keyRead := ReadInto(fixed.file, |head.key|);
    assert keyRead.count == |head.key|;
    assert Construct(Some(c)) == Success(InStream(keyRead.file, head.(key := keyRead.data), 0));
    assert keyRead.data == PicoFile.KeyBytes(c, |head.key|);
  }

  /** `getHeader()`: a copy of the header. */
  function GetHeader(s: InStream): (r: Result<Header>)
    ensures s.head.hash.Some? ==> r == Success(s.head)
    ensures s.head.hash.None? ==> r == Failure(NullPointer)
  {
    Clone(s.head)
  }

  /**
   * `read()`: -1 at the end of the wrapped stream, with nothing changed;
   * otherwise the next byte deciphered at the current position, as 0..255,
   * and the position advances.  An empty key makes deciphering throw.
   */
  function Read(s: InStream): (r: Result<(int, InStream)>)
    ensures s.source.pointer >= |s.source.bytes| ==> r == Success((-1, s))
    ensures s.source.pointer < |s.source.bytes| ==> (r.Success? <==> |s.head.key| > 0)
    ensures s.source.pointer < |s.source.bytes| && |s.head.key| == 0 ==> r == Failure(Arithmetic)
    ensures s.source.pointer < |s.source.bytes| && r.Success? ==>
      && |s.head.key| > 0
      && r.value.0 == Crypt(s.head.key, s.source.bytes[s.source.pointer], s.position) as int
      && r.value.1 == s.(source := s.source.(pointer := s.source.pointer + 1), position := s.position + 1)
  {
    var (result, next) := ReadNext(s.source);
    if result >= 0 then
      ByteOfAsNat(s.source.bytes[s.source.pointer]);
      var b :- CryptAt(s.head.key, ByteOf(result), s.position);
      Success((b as int, s.(source := next, position := s.position + 1)))
    else
      Success((result, s))
  }

  /** `read()` never yields anything but -1 or a byte value. */
  lemma ReadRange(s: InStream)
    requires Read(s).Success?
    ensures -1 <= Read(s).value.0 < 256
    ensures Read(s).value.0 == -1 <==> s.source.pointer >= |s.source.bytes|
  {
  }

  /**
   * Reading to the end with `read(b)`, whose inherited default calls
   * `read()` until the array is full or -1 comes back: the bytes collected
   * are the rest of the wrapped stream deciphered from the current
   * position on.
   */
  method ReadToEnd(s: InStream) returns (data: seq<byte>, t: InStream)
    requires |s.head.key| > 0 && s.source.pointer <= |s.source.bytes|
    ensures data == Cipher(s.head.key, s.source.bytes[s.source.pointer..], s.position)
    ensures t.source == s.source.(pointer := |s.source.bytes|) && t.head == s.head
    ensures t.position == s.position + |data|
  {
    var bytes := s.source.bytes;
    var start := s.source.pointer;
    data := [];
    t := s;
    var result := 0;
    while result != -1
      invariant t.head == s.head && t.source.bytes == bytes
      invariant start <= t.source.pointer <= |bytes|
      invariant t.position == s.position + (t.source.pointer - start)
      invariant data == Cipher(s.head.key, bytes[start..t.source.pointer], s.position)
      invariant result == -1 ==> t.source.pointer == |bytes|
      decreases |bytes| - t.source.pointer + (if result == -1 then 0 else 1)
    {
      var step := Read(t);
      result := step.value.0;
      if result != -1 {
        var p := t.source.pointer;
        var c := Crypt(s.head.key, bytes[p], t.position);
        ByteOfAsNat(c);
        CipherSnoc(s.head.key, bytes[start..p], bytes[p], s.position);
        assert bytes[start..p + 1] == bytes[start..p] + [bytes[p]];
        data := data + [ByteOf(result)];
        t := step.value.1;
      }
    }
  }
}
