/**
 * `PicoOutputStream`: a sequential writer.  Each byte written is fed to the
 * digest, ciphered by its position and buffered in a temporary file; `finish`
 * writes the header, holding the digest of everything written, to the
 * wrapped stream, followed by the buffered ciphertext.
 */
module PicoOutputStream {
  import opened Wrappers
  import opened Bytes
  import opened PicoFileOffsets
  import opened PicoHeader
  import opened Digest

  /**
   * The stream: the header, the bytes fed to the digest, the ciphertext in
   * the temporary file, the position, the `_closed` flag, whether the
   * temporary file is still open for writing and still exists, and the
   * bytes of the wrapped stream and whether it is open.
   */
  datatype OutStream = OutStream(
    head: Header,
    fed: seq<byte>,
    encrypted: seq<byte>,
    position: nat,
    closed: bool,
    tmpOpen: bool,
    tmpExists: bool,
    out: seq<byte>,
    outOpen: bool)

  /**
   * The constructor: a null key or a null stream throws, and `setKey`
   * rejects an empty key.  `os` is what the wrapped stream already holds.
   */
  function Construct(key: Option<seq<byte>>, os: Option<seq<byte>>): (r: Result<OutStream>)
    ensures key.None? || os.None? ==> r == Failure(NullPointer)
    ensures key.Some? && os.Some? && |key.value| == 0 ==> r == Failure(IllegalArgument)
    ensures r.Success? <==> key.Some? && os.Some? && |key.value| > 0
    ensures r.Success? ==>
      && r.value.head == Header(None, KEY_OFFSET + |key.value|, key.value)
      && r.value.fed == [] && r.value.encrypted == [] && r.value.position == 0
      && !r.value.closed && r.value.tmpOpen && r.value.tmpExists
      && r.value.out == os.value && r.value.outOpen
  {
    if key.None? || os.None? then Failure(NullPointer)
    else
      var head :- SetKey(NewHeader, key);
      Success(OutStream(head, [], [], 0, false, true, true, os.value, true))
  }

  /**
   * `write(datum)`: feeds the low byte of `datum` to the digest, ciphers it
   * by the position, appends it to the temporary file and advances the
   * position by one.  Writing after `finish` has closed the temporary file
   * throws.
   */
  function Write(s: OutStream, datum: int): (r: Result<OutStream>)
    ensures s.closed ==> r == Success(s)
    ensures !s.closed ==> (r.Success? <==> |s.head.key| > 0 && s.tmpOpen)
    ensures !s.closed && |s.head.key| > 0 && !s.tmpOpen ==> r == Failure(IO)
    ensures r.Success? && !s.closed ==>
      && r.value.fed == s.fed + [LowByte(datum)]
      && r.value.encrypted == s.encrypted + [Crypt(s.head.key, LowByte(datum), s.position)]
      && r.value.position == s.position + 1
      && r.value == s.(fed := r.value.fed, encrypted := r.value.encrypted, position := r.value.position)
  {
    if s.closed then Success(s)
    else
      var d := LowByte(datum);
      var c :- CryptAt(s.head.key, d, s.position);
      CryptAtIsCrypt(s.head.key, d, s.position);
      if !s.tmpOpen then Failure(IO)
      else Success(s.(fed := s.fed + [d], encrypted := s.encrypted + [c], position := s.position + 1))
  }

  /**
   * `finish()`: stores the digest of everything written in the header (the
   * digest is reset by taking it), writes the encoded header to the wrapped
   * stream, then copies the whole temporary file after it and deletes the
   * temporary file.  A second `finish` finds the temporary file gone and
   * throws.
   */
  function Finish(s: OutStream): (r: Result<OutStream>)
    ensures s.closed ==> r == Success(s)
    ensures !s.closed ==> (r.Success? <==> s.outOpen && s.tmpExists)
    ensures r.Success? && !s.closed ==>
      var h := s.head.(hash := Some(Hash(s.fed)));
      && PutHeader(h).Success?
      && r.value.out == s.out + PutHeader(h).value.0 + s.encrypted
      && r.value.head == h.(offset := EffectiveOffset(h))
      && r.value.fed == [] && !r.value.tmpOpen && !r.value.tmpExists
      && r.value.encrypted == s.encrypted && r.value.position == s.position
      && r.value.outOpen && r.value.closed == s.closed
  {
    if s.closed then Success(s)
    else
      var h := s.head.(hash := Some(Hash(s.fed)));
      var enc :- PutHeader(h);
      if !s.outOpen then Failure(IO)
      else if !s.tmpExists then Failure(IO)
      else
        Success(s.(head := enc.1, fed := [], out := s.out + enc.0 + s.encrypted,
                   tmpOpen := false, tmpExists := false))
  }

  /** `close()`: `finish`, then close the wrapped stream.  There is no guard, so a second `close` throws. */
  function Close(s: OutStream): (r: Result<OutStream>)
    ensures r.Success? <==> Finish(s).Success?
    ensures r.Success? ==> r.value == Finish(s).value.(outOpen := false)
  {
    var g :- Finish(s);
    Success(g.(outOpen := false))
  }

  /** `write(b, 0, n)`, inherited from `OutputStream`: `write(int)` of each byte, widened with its sign. */
  function WriteBytes(s: OutStream, data: seq<byte>): (r: Result<OutStream>)
    ensures |data| == 0 ==> r == Success(s)
    decreases |data|
  {
    if |data| == 0 then Success(s)
    else
      var g :- WriteBytes(s, data[..|data| - 1]);
      Write(g, SignedByte(data[|data| - 1]))
  }

  //--------------------------------------------------------------------------
  // Properties
  //--------------------------------------------------------------------------

  /**
   * The state between construction and `finish`: the position counts the
   * bytes written, the digest has been fed exactly those bytes, and the
   * temporary file holds them ciphered from position 0.
   */
  predicate Writing(s: OutStream)
  {
    && !s.closed && s.tmpOpen && s.tmpExists && s.outOpen
    && |s.head.key| > 0 && s.head.offset == KEY_OFFSET + |s.head.key| && s.head.hash.None?
    && s.position == |s.fed|
    && s.encrypted == Cipher(s.head.key, s.fed, 0)
  }

  lemma ConstructWriting(key: seq<byte>, os: seq<byte>)
    requires |key| > 0
    ensures Construct(Some(key), Some(os)).Success?
    ensures Writing(Construct(Some(key), Some(os)).value)
  {
  }

  /** Widening a byte with its sign and masking it with 0xff gives the byte back. */
  lemma LowSignedByte(b: byte)
    ensures LowByte(SignedByte(b)) == b
  {
    ByteOfAsNat(b);
  }

  /** `write(datum)` keeps the stream in step: one more plaintext byte, one more ciphertext byte. */
  lemma WriteKeepsWriting(s: OutStream, datum: int)
    requires Writing(s)
    ensures Write(s, datum).Success?
    ensures Writing(Write(s, datum).value)
    ensures Write(s, datum).value.fed == s.fed + [LowByte(datum)]
    ensures Write(s, datum).value.head == s.head && Write(s, datum).value.out == s.out
  {
    var d := LowByte(datum);
    CipherAppend(s.head.key, s.fed, [d], 0);
  }

  /** After writing `data` the digest has been fed exactly `data` and the position is its length. */
  lemma {:induction false} WriteBytesKeepsWriting(s: OutStream, data: seq<byte>)
    requires Writing(s)
    ensures WriteBytes(s, data).Success?
    ensures Writing(WriteBytes(s, data).value)
    ensures WriteBytes(s, data).value.fed == s.fed + data
    ensures WriteBytes(s, data).value.head == s.head && WriteBytes(s, data).value.out == s.out
    decreases |data|
  {
    if |data| == 0 {
      assert s.fed + data == s.fed;
    } else {
      var front := data[..|data| - 1];
      WriteBytesKeepsWriting(s, front);
      var g := WriteBytes(s, front).value;
      WriteKeepsWriting(g, SignedByte(data[|data| - 1]));
      LowSignedByte(data[|data| - 1]);
      assert s.fed + front + [data[|data| - 1]] == s.fed + data;
    }
  }

  /**
   * `finish` while writing: the wrapped stream receives the header, whose
   * hash is that of every byte written and whose offset is the end of the
   * key, followed by the ciphertext of every byte written.
   */
  lemma FinishWrites(s: OutStream)
    requires Writing(s)
    ensures Finish(s).Success?
    ensures var h := Header(Some(Hash(s.fed)), KEY_OFFSET + |s.head.key|, s.head.key);
      && PutHeader(h).Success?
      && Finish(s).value.out == s.out + PutHeader(h).value.0 + Cipher(s.head.key, s.fed, 0)
      && Finish(s).value.head == h
  {
  }

  /** The `_closed` guards are dead: no operation ever sets the flag. */
  lemma NeverClosed(s: OutStream, datum: int)
    requires !s.closed
    ensures Write(s, datum).Success? ==> !Write(s, datum).value.closed
    ensures Finish(s).Success? ==> !Finish(s).value.closed
    ensures Close(s).Success? ==> !Close(s).value.closed
  {
  }

  /** After `finish`, writing throws, and so does finishing or closing again. */
  lemma FinishIsFinal(s: OutStream, datum: int)
    requires !s.closed && Finish(s).Success?
    ensures Write(Finish(s).value, datum).Failure?
    ensures Finish(Finish(s).value).Failure?
    ensures Close(Finish(s).value).Failure?
  {
  }
}
