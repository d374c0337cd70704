/**
 * Properties of `PicoFile` across calls: sequential writing after `create`
 * keeps the digest in step with the plaintext, `finish` stores the hash of
 * exactly that plaintext in front of the ciphertext, and `open` followed by
 * reading to the end gives the plaintext back.  The rest of the module pins
 * down the places where the code does something other than its comments
 * promise.
 */
module PicoFileProps {
  import opened Wrappers
  import opened Bytes
  import opened PicoFileOffsets
  import opened PicoHeader
  import opened Digest
  import opened RandomAccess
  import opened PicoFile

  //--------------------------------------------------------------------------
  // Sequential writing after create
  //--------------------------------------------------------------------------

  /**
   * `f` has been written sequentially from position 0 with `plain`: the
   * watermark and the position are both at the end of the plaintext, the
   * digest has been fed exactly the plaintext, and the data area holds the
   * plaintext ciphered from position 0.  Before the first write the file
   * holds no data at all.
   */
  predicate Appending(f: State, plain: seq<byte>)
  {
    && f.open && |f.head.key| > 0
    && f.head.offset == KEY_OFFSET + |f.head.key|
    && f.fed == plain && f.digestValidTo == |plain|
    && f.backing.pointer == f.head.offset + |plain|
    && if plain == [] then |f.backing.bytes| <= f.head.offset
       else
         && |f.backing.bytes| == f.backing.pointer
         && f.backing.bytes[f.head.offset..] == Cipher(f.head.key, plain, 0)
  }

  /** `create` with a non-empty key starts a sequential write with no plaintext yet. */
  lemma CreateStartsAppending(file: seq<byte>, key: seq<byte>)
    requires |key| > 0
    ensures Create(Some(file), Some(key)).Success?
    ensures Appending(Create(Some(file), Some(key)).value, [])
    ensures Create(Some(file), Some(key)).value.head.key == key
  {
  }

  /**
   * A write at the watermark: `_updateDigest` returns at once, the digest is
   * fed exactly the written bytes, the watermark advances by their count,
   * and the ciphertext is appended.
   */
  lemma WriteAppends(f: State, plain: seq<byte>, data: seq<byte>)
    requires Appending(f, plain) && |data| > 0
    ensures Write(f, Wrap(data)).Success?
    ensures Write(f, Wrap(data)).value.0 == |data|
    ensures Appending(Write(f, Wrap(data)).value.1, plain + data)
    ensures Write(f, Wrap(data)).value.1.head == f.head
    ensures Write(f, Wrap(data)).value.1.hashValid == f.hashValid
  {
    var key, off := f.head.key, f.head.offset;
    assert Position(f) == Success(|plain|);
    assert UpdateDigest(f) == Success(f);
    assert CryptRange(key, data, |plain|) == Success(Cipher(key, data, |plain|));
    var g := Write(f, Wrap(data)).value.1;
    var from: nat := f.backing.pointer - f.head.offset;
    assert from == |plain|;
    assert g.backing.bytes == Overwrite(f.backing.bytes, f.backing.pointer, Cipher(key, data, from));
    AppendCiphertext(f.backing.bytes, off, key, plain, data);
    assert g.backing.bytes[off..] == Cipher(key, plain + data, 0);
  }

  /** Writing the ciphertext of `data` at the end of the ciphertext of `plain` gives the ciphertext of both. */
  lemma AppendCiphertext(bytes: seq<byte>, off: nat, key: seq<byte>, plain: seq<byte>, data: seq<byte>)
    requires |key| > 0
    requires plain == [] ==> |bytes| <= off
    requires plain != [] ==> |bytes| == off + |plain| && bytes[off..] == Cipher(key, plain, 0)
    ensures var b := Overwrite(bytes, off + |plain|, Cipher(key, data, |plain|));
      |b| == off + |plain| + |data| && b[off..] == Cipher(key, plain + data, 0)
  {
    var encr := Cipher(key, data, |plain|);
    var b := Overwrite(bytes, off + |plain|, encr);
    if plain == [] {
      assert b[off..] == encr by {
        forall i | 0 <= i < |encr|
          ensures b[off + i] == encr[i]
        {
        }
      }
      assert plain + data == data;
    } else {
      OverwriteAtEnd(bytes, encr);
      assert b[off..] == bytes[off..] + encr;
      CipherAppend(key, plain, data, 0);
    }
  }

  /** The plaintext of a sequence of writes. */
  function Concat(chunks: seq<seq<byte>>): (all: seq<byte>)
    ensures |chunks| == 1 ==> all == chunks[0]
  {
    if |chunks| == 0 then [] else Concat(chunks[..|chunks| - 1]) + chunks[|chunks| - 1]
  }

  /** The plaintext of two runs of writes is the plaintext of the first followed by that of the second. */
  lemma {:induction false} ConcatSplit(front: seq<seq<byte>>, back: seq<seq<byte>>)
    ensures Concat(front + back) == Concat(front) + Concat(back)
    decreases |back|
  {
    if |back| > 0 {
      assert (front + back)[..|front + back| - 1] == front + back[..|back| - 1];
      ConcatSplit(front, back[..|back| - 1]);
    } else {
      assert front + back == front;
    }
  }

  /** `write(ByteBuffer.wrap(chunk))` for each chunk in turn; the first exception stops the sequence. */
  function WriteChunks(f: State, chunks: seq<seq<byte>>): (r: Result<State>)
    ensures |chunks| == 0 ==> r == Success(f)
    decreases |chunks|
  {
    if |chunks| == 0 then Success(f)
    else
      var g :- WriteChunks(f, chunks[..|chunks| - 1]);
      var w :- Write(g, Wrap(chunks[|chunks| - 1]));
      Success(w.1)
  }

  /** Sequential writes of non-empty chunks keep the digest in step with everything written. */
  lemma {:induction false} WriteChunksAppend(f: State, plain: seq<byte>, chunks: seq<seq<byte>>)
    requires Appending(f, plain)
    requires forall i | 0 <= i < |chunks| :: |chunks[i]| > 0
    ensures WriteChunks(f, chunks).Success?
    ensures Appending(WriteChunks(f, chunks).value, plain + Concat(chunks))
    ensures WriteChunks(f, chunks).value.head == f.head
    ensures WriteChunks(f, chunks).value.hashValid == f.hashValid
    decreases |chunks|
  {
    if |chunks| == 0 {
      assert plain + Concat(chunks) == plain;
    } else {
      var front := chunks[..|chunks| - 1];
      WriteChunksAppend(f, plain, front);
      var g := WriteChunks(f, front).value;
      var last := chunks[|chunks| - 1];
      WriteAppends(g, plain + Concat(front), last);
      assert Concat(chunks) == Concat(front) + last;
      AppendAssoc(plain, Concat(front), last);
    }
  }

  //--------------------------------------------------------------------------
  // Finishing, reopening and reading back
  //--------------------------------------------------------------------------

  /** The header `finish` stores for a sequentially written file. */
  function FinalHeader(key: seq<byte>, plain: seq<byte>): (h: Header)
    ensures h.hash == Some(Hash(plain)) && |h.hash.value| == HASH_LENGTH && h.key == key
    ensures h.offset == KEY_OFFSET + |key| && EffectiveOffset(h) == h.offset
  {
    Header(Some(Hash(plain)), KEY_OFFSET + |key|, key)
  }

  /**
   * `finish` after sequential writing: the hash is that of exactly the
   * plaintext written, and the file is the encoded header followed by the
   * ciphertext.
   */
  lemma {:induction false} FinishHashesPlaintext(f: State, plain: seq<byte>)
    requires Appending(f, plain) && !f.hashValid
    ensures Finish(f).Success?
    ensures var g := Finish(f).value;
      && g.open && g.hashValid && g.fed == [] && g.digestValidTo == 0
      && g.head == FinalHeader(f.head.key, plain)
      && g.backing.pointer == f.backing.pointer
      && g.backing.bytes == PutHeader(FinalHeader(f.head.key, plain)).value.0 + Cipher(f.head.key, plain, 0)
  {
    var key, off := f.head.key, f.head.offset;
    var atEnd := f.(backing := f.backing.(pointer := |f.backing.bytes|));
    var pos := |f.backing.bytes| - off;
    assert Position(atEnd) == Success(pos);
    if plain == [] {
      if pos < 0 {
        var h := SetPosition(ResetDigest(atEnd), 0).value;
        assert DigestLoop(h, Allocate(BLOCK_SIZE), pos) == Success(h);
        assert UpdateDigest(atEnd) == Success(h);
      } else {
        assert UpdateDigest(atEnd) == Success(atEnd);
      }
    } else {
      assert atEnd == f;
      assert UpdateDigest(atEnd) == Success(atEnd);
    }
    var g := ComputeHash(f).value;
    assert g.head == FinalHeader(key, plain).(offset := off);
    var hb := PutHeader(g.head).value.0;
    assert |hb| == off;
    OverwriteFront(f.backing.bytes, hb);
    assert Finish(f) == WriteHeader(g, f.backing.pointer);
  }

  /** `close` is `finish` followed by marking the file closed. */
  lemma CloseIsFinish(f: State)
    requires f.open
    ensures Finish(f).Success? ==> Close(f) == Success(Finish(f).value.(open := false))
    ensures Finish(f).Failure? ==> Close(f) == Failure(Finish(f).error)
  {
  }

  /** The file a sequential write leaves behind: header, key, ciphertext. */
  function WrittenFile(key: seq<byte>, plain: seq<byte>): (file: seq<byte>)
    requires |key| > 0
    ensures |file| == KEY_OFFSET + |key| + |plain|
  {
    PutHeader(FinalHeader(key, plain)).value.0 + Cipher(key, plain, 0)
  }

  /** The fixed header of a sequentially written file decodes to the final header, with a zeroed key. */
  lemma WrittenFixedHeader(key: seq<byte>, plain: seq<byte>)
    requires 0 < |key| < 0x8000
    ensures PicoHeader.GetHeader(FixedBlock(WrittenFile(key, plain)))
            == Success(FinalHeader(key, plain).(key := Zeros(|key|)))
    ensures WrittenFile(key, plain)[FIXED_HEADER_LENGTH..FIXED_HEADER_LENGTH + |key|] == key
  {
    var h := FinalHeader(key, plain);
    HeaderRoundTrip(h);
    var hb := PutHeader(h).value.0;
    assert |hb| == FIXED_HEADER_LENGTH + |key|;
    SliceOfAppend(hb, Cipher(key, plain, 0), 0, FIXED_HEADER_LENGTH);
    SliceOfAppend(hb, Cipher(key, plain, 0), FIXED_HEADER_LENGTH, FIXED_HEADER_LENGTH + |key|);
    GetHeaderReadsFixedPart(hb);
  }

  /**
   * `open` of a file written sequentially and finished: the header read
   * back is the one `finish` wrote, with the key restored, and the position
   * is the start of the data.
   */
  lemma OpenWrittenFile(key: seq<byte>, plain: seq<byte>)
    requires 0 < |key| < 0x8000
    ensures Open(Some(WrittenFile(key, plain))).Success?
    ensures var g := Open(Some(WrittenFile(key, plain))).value;
      && g.head == FinalHeader(key, plain)
      && g.backing == Raf(WrittenFile(key, plain), KEY_OFFSET + |key|)
      && g.hashValid && g.open
  {
    WrittenFileOpens(key, plain);
    var g := Open(Some(WrittenFile(key, plain))).value;
    assert Position(g) == Success(0);
  }

  /** The header of a sequentially written file reads back as the final header, key included. */
  lemma WrittenFileOpens(key: seq<byte>, plain: seq<byte>)
    requires 0 < |key| < 0x8000
    ensures Opens(WrittenFile(key, plain))
    ensures StoredHeader(WrittenFile(key, plain)) == FinalHeader(key, plain)
  {
    var file := WrittenFile(key, plain);
    WrittenFixedHeader(key, plain);
    var fixed := PicoHeader.GetHeader(FixedBlock(file)).value;
    assert |fixed.key| == |key|;
    assert KeyAvailable(file, |key|);
    assert KeyBytes(file, |key|) == key;
    assert HeaderReadable(file);
  }

  /**
   * One turn of the read loop: `read` into a cleared buffer either reports
   * the end of the file or fills the front of the buffer with the next
   * bytes, deciphered.
   */
  method ReadChunk(g: State, buf: ByteBuffer) returns (out: ReadOut)
    requires buf.Valid() && buf.position == 0 && buf.limit == |buf.contents| > 0
    requires g.open && |g.head.key| > 0 && 0 <= g.head.offset <= g.backing.pointer
    ensures var p := g.backing.pointer;
      && (out.count <= 0 ==> p >= |g.backing.bytes| && out.file == g)
      && (out.count > 0 ==>
            && p + out.count <= |g.backing.bytes|
            && OnlyPointerMoved(g, out.file) && out.file.backing.pointer == p + out.count
            && out.dst.Valid() && |out.dst.contents| == |buf.contents| && out.count <= |buf.contents|
            && out.dst.contents[..out.count]
               == Cipher(g.head.key, g.backing.bytes[p..p + out.count], p - g.head.offset))
  {
    out := Read(g, buf).value;
    if out.count > 0 {
      ReadDeciphers(g, buf);
    }
  }

  /** Deciphering two adjacent slices separately is deciphering their union. */
  lemma CipherSlices(key: seq<byte>, bytes: seq<byte>, at: nat, mid: nat, i: nat, j: nat, k: nat)
    requires |key| > 0 && i <= j <= k <= |bytes| && mid == at + j - i
    ensures Cipher(key, bytes[i..j], at) + Cipher(key, bytes[j..k], mid) == Cipher(key, bytes[i..k], at)
  {
    assert bytes[i..k] == bytes[i..j] + bytes[j..k];
    CipherAppend(key, bytes[i..j], bytes[j..k], at);
  }

  /** One pass of the read loop: clear the buffer, `read` into it, and append what was read to `data`. */
  method ReadStep(f: State, g: State, buf: ByteBuffer, data: seq<byte>)
    returns (data': seq<byte>, g': State, buf': ByteBuffer, length: int)
    requires f.open && |f.head.key| > 0 && 0 <= f.head.offset <= f.backing.pointer
    requires OnlyPointerMoved(f, g) && f.backing.pointer <= g.backing.pointer <= |f.backing.bytes|
    requires buf.Valid() && |buf.contents| > 0
    requires data == Cipher(f.head.key, f.backing.bytes[f.backing.pointer..g.backing.pointer], f.backing.pointer - f.head.offset)
    ensures OnlyPointerMoved(f, g') && g.backing.pointer <= g'.backing.pointer <= |f.backing.bytes|
    ensures buf'.Valid() && |buf'.contents| == |buf.contents|
    ensures data' == Cipher(f.head.key, f.backing.bytes[f.backing.pointer..g'.backing.pointer], f.backing.pointer - f.head.offset)
    ensures length <= 0 ==> g'.backing.pointer == |f.backing.bytes|
    ensures length > 0 ==> g'.backing.pointer > g.backing.pointer
  {
    var key, bytes, start := f.head.key, f.backing.bytes, f.backing.pointer;
    var cleared := buf.Clear();
    var out := ReadChunk(g, cleared);
    length := out.count;
    if length > 0 {
      var here, next := g.backing.pointer, g.backing.pointer + length;
      var at: nat := start - f.head.offset;
      var got := out.dst.contents[..out.count];
      var from: nat := here - g.head.offset;
      assert got == Cipher(g.head.key, g.backing.bytes[here..here + out.count], from);
      assert g.head.key == key && g.backing.bytes[here..here + out.count] == bytes[here..next];
      assert from == at + here - start;
      assert got == Cipher(key, bytes[here..next], from);
      assert data == Cipher(key, bytes[start..here], at);
      CipherSlices(key, bytes, at, from, start, here, next);
      data', g', buf' := data + got, out.file, out.dst;
      assert data' == Cipher(key, bytes[start..next], at);
    } else {
      assert g.backing.bytes == bytes;
      assert g.backing.pointer >= |bytes|;
      data', g', buf' := data, g, cleared;
    }
  }

  /**
   * The read loop of the round-trip test: clear a buffer of `capacity`
   * bytes, `read` into it, and collect what was read, until `read` returns
   * -1.  It yields the whole data area from the position, deciphered.
   */
  method ReadToEnd(f: State, capacity: nat) returns (data: seq<byte>, g: State)
    requires f.open && |f.head.key| > 0 && capacity > 0
    requires 0 <= f.head.offset <= f.backing.pointer <= |f.backing.bytes|
    ensures data == Cipher(f.head.key, f.backing.bytes[f.backing.pointer..], f.backing.pointer - f.head.offset)
    ensures OnlyPointerMoved(f, g) && g.backing.pointer == |f.backing.bytes|
  {
    var key, bytes, start, end := f.head.key, f.backing.bytes, f.backing.pointer, |f.backing.bytes|;
    var buf := Allocate(capacity);
    data, g := [], f;
    var length := 1;
    while length > 0
      invariant OnlyPointerMoved(f, g) && start <= g.backing.pointer <= end
      invariant buf.Valid() && |buf.contents| == capacity
      invariant length <= 0 ==> g.backing.pointer == end
      invariant data == Cipher(key, bytes[start..g.backing.pointer], start - f.head.offset)
      decreases end - g.backing.pointer + (if length > 0 then 1 else 0)
    {
      data, g, buf, length := ReadStep(f, g, buf, data);
    }
    assert bytes[start..g.backing.pointer] == bytes[start..];
  }

  /**
   * The file round trip: `create`, one `write` of the data, `close`, `open`,
   * then reading in `capacity`-byte chunks until the end gives the data back.
   */
  method FileRoundTrip(file: seq<byte>, key: seq<byte>, plain: seq<byte>, capacity: nat)
    returns (back: seq<byte>)
    requires 0 < |key| < 0x8000 && |plain| > 0 && capacity > 0
    ensures back == plain
  {
    CreateStartsAppending(file, key);
    var f := Create(Some(file), Some(key)).value;
    WriteAppends(f, [], plain);
    assert [] + plain == plain;
    var w := Write(f, Wrap(plain)).value.1;
    FinishHashesPlaintext(w, plain);
    CloseIsFinish(w);
    var closed := Close(w).value;
    assert closed.backing.bytes == WrittenFile(key, plain);
    OpenWrittenFile(key, plain);
    var g := Open(Some(closed.backing.bytes)).value;
    assert g.backing.bytes[g.backing.pointer..] == Cipher(key, plain, 0);
    var rest;
    back, rest := ReadToEnd(g, capacity);
    CipherInvolution(key, plain, 0);
  }

  //--------------------------------------------------------------------------
  // Finishing twice, closing twice
  //--------------------------------------------------------------------------

  /** A second `finish` with nothing in between writes the same bytes and changes nothing. */
  lemma FinishIdempotent(f: State)
    requires Finish(f).Success?
    ensures Finish(Finish(f).value) == Finish(f)
  {
    if f.open {
      var g := Finish(f).value;
      FinishWritesHeader(f);
      var hb := PutHeader(g.head).value.0;
      assert PutHeader(g.head).value.1 == g.head;
      OverwriteTwice(f.backing.bytes, HEAD_START, hb);
      assert WriteHeader(g, g.backing.pointer) == Success(g);
    }
  }

  /** After `close`, closing again, finishing, reading and writing all leave the file alone. */
  lemma ClosedFileIsInert(f: State, buf: ByteBuffer, datum: int)
    requires Close(f).Success? && buf.Valid() && buf.limit > 0
    ensures var g := Close(f).value;
      && Close(g) == Success(g)
      && Finish(g) == Success(g)
      && Read(g, buf) == Success(ReadOut(-1, buf, g))
      && ReadByte(g) == Success((-1, g))
      && Write(g, buf) == Success((-1, g))
      && WriteByte(g, datum) == Success(g)
  {
  }

  /** `truncate` sets the size of the data area: `size()` then reads back the requested size. */
  lemma TruncateSetsSize(f: State, size: int)
    requires f.open && size + f.head.offset >= 0
    ensures Truncate(f, size).Success?
    ensures Size(Truncate(f, size).value) == Success(size)
  {
  }

  //--------------------------------------------------------------------------
  // Where the code does something other than what its comments promise
  //--------------------------------------------------------------------------

  /** A freshly created file has no hash yet, so `getHeader` throws in `clone`. */
  lemma GetHeaderAfterCreateThrows(file: seq<byte>, key: seq<byte>)
    requires |key| > 0
    ensures PicoFile.GetHeader(Create(Some(file), Some(key)).value) == Failure(NullPointer)
  {
  }

  /**
   * `write` does not mark the hash invalid: after `open` and a write, the
   * hash is still valid, and `finish` writes the hash read from the file
   * back into the header, whatever the write changed.
   */
  lemma WriteKeepsStaleHash(file: seq<byte>, src: ByteBuffer)
    requires Open(Some(file)).Success? && src.Valid()
    ensures var g := Open(Some(file)).value;
      Write(g, src).Success? ==>
        var w := Write(g, src).value.1;
        && w.hashValid
        && (Finish(w).Success? ==> Finish(w).value.head.hash == g.head.hash)
  {
  }

  /** `write` writes the whole backing array of the buffer; its position and limit only gate the call. */
  lemma WriteIgnoresWindow(f: State, src: ByteBuffer)
    requires src.Valid() && src.limit > 0
    ensures Write(f, src) == Write(f, Wrap(src.contents))
  {
  }

  /**
   * `_updateDigest`'s loop when the rest of the file fits one block and
   * reaching the end suffices: one read takes the rest of the file, the
   * watermark advances by its length, and the digest is fed the part of the
   * block that the read did not fill, which is still zero.
   */
  lemma DigestLoopOneBlock(h: State, pos: int)
    requires h.open && |h.head.key| > 0 && h.head.offset <= h.backing.pointer < |h.backing.bytes|
    requires |h.backing.bytes| - h.backing.pointer <= BLOCK_SIZE
    requires h.digestValidTo < pos <= h.digestValidTo + |h.backing.bytes| - h.backing.pointer
    ensures var n := |h.backing.bytes| - h.backing.pointer;
      DigestLoop(h, Allocate(BLOCK_SIZE), pos)
      == Success(h.(backing := h.backing.(pointer := |h.backing.bytes|),
                    digestValidTo := h.digestValidTo + n,
                    fed := h.fed + Zeros(BLOCK_SIZE - n)))
  {
    var n := |h.backing.bytes| - h.backing.pointer;
    var buf := Allocate(BLOCK_SIZE);
    var out := Read(h, buf).value;
    assert out.count == n;
    var unread := out.dst.contents[out.dst.position..out.dst.limit];
    assert unread == Zeros(BLOCK_SIZE - n);
    var next := out.file.(digestValidTo := h.digestValidTo + out.count, fed := h.fed + unread);
    assert DigestLoop(next, out.dst.Clear(), pos) == Success(next);
  }

  /**
   * `write(datum)` at the watermark feeds the digest but leaves the
   * watermark where it was; `finish` then catches the digest up by reading
   * a whole block, and hashes the byte followed by the zeros of the part of
   * the block that the read did not fill.
   */
  lemma WriteByteThenFinish(f: State, plain: seq<byte>, datum: int)
    requires Appending(f, plain) && !f.hashValid
    ensures WriteByte(f, datum).Success?
    ensures var w := WriteByte(f, datum).value;
      && w.fed == plain + [LowByte(datum)] && w.digestValidTo == |plain|
      && Finish(w).Success?
      && Finish(w).value.head.hash == Some(Hash(plain + [LowByte(datum)] + Zeros(BLOCK_SIZE - 1)))
  {
    var w := WriteByte(f, datum).value;
    assert |w.backing.bytes| == f.head.offset + |plain| + 1;
    var atEnd := w.(backing := w.backing.(pointer := |w.backing.bytes|));
    assert Position(atEnd) == Success(|plain| + 1);
    var h := SetPosition(atEnd, |plain|).value;
    DigestLoopOneBlock(h, |plain| + 1);
    assert UpdateDigest(atEnd).value.fed == plain + [LowByte(datum)] + Zeros(BLOCK_SIZE - 1);
  }

  /**
   * So `write(datum)` followed by `finish` stores a hash that is not the
   * hash of the plaintext the file now holds.
   */
  lemma WriteByteHashIsWrong(f: State, plain: seq<byte>, datum: int)
    requires Appending(f, plain) && !f.hashValid
    ensures WriteByte(f, datum).Success? && Finish(WriteByte(f, datum).value).Success?
    ensures Finish(WriteByte(f, datum).value).value.head.hash != Some(Hash(plain + [LowByte(datum)]))
  {
    WriteByteThenFinish(f, plain, datum);
    var fed := plain + [LowByte(datum)];
    DivModUnique(BLOCK_SIZE - 1, 256, 63, 255);
    ZeroPaddingChangesHash(fed, BLOCK_SIZE - 1);
    assert Hash(fed + Zeros(BLOCK_SIZE - 1)) != Hash(fed);
  }

  /**
   * `position(p)` past the end, then `write`: `_updateDigest` reads from
   * the watermark, hits the end of the file, adds -1 to the watermark and
   * reads again, for ever.
   */
  lemma WritePastEndHangs(f: State, plain: seq<byte>, p: int, data: seq<byte>)
    requires Appending(f, plain) && p > |plain| && |data| > 0
    ensures SetPosition(f, p).Success?
    ensures Write(SetPosition(f, p).value, Wrap(data)) == Failure(Hangs)
  {
    var moved := SetPosition(f, p).value;
    assert Position(moved) == Success(p);
    var h := SetPosition(moved, |plain|).value;
    assert h.backing.pointer >= |h.backing.bytes|;
    assert Read(h, Allocate(BLOCK_SIZE)).value.count == -1;
    assert DigestLoop(h, Allocate(BLOCK_SIZE), p) == Failure(Hangs);
    assert UpdateDigest(moved) == Failure(Hangs);
  }

  /**
   * `position(p)` back into the data, then `write`: `_updateDigest` resets,
   * reads the whole data back in one block, feeds the digest the unfilled
   * zeros of the block instead of the data, and leaves the file pointer at
   * the end, so the new bytes are appended there, ciphered for position `p`.
   */
  lemma BackwardWriteAppends(f: State, plain: seq<byte>, p: int, data: seq<byte>)
    requires Appending(f, plain) && 0 < p < |plain| <= BLOCK_SIZE && |data| > 0
    ensures SetPosition(f, p).Success?
    ensures Write(SetPosition(f, p).value, Wrap(data)).Success?
    ensures var g := Write(SetPosition(f, p).value, Wrap(data)).value.1;
      && g.fed == Zeros(BLOCK_SIZE - |plain|) + data
      && g.digestValidTo == |plain| + |data|
      && g.backing.bytes == f.backing.bytes + Cipher(f.head.key, data, p)
  {
    var key := f.head.key;
    var moved := SetPosition(f, p).value;
    assert Position(moved) == Success(p);
    var h := SetPosition(ResetDigest(moved), 0).value;
    DigestLoopOneBlock(h, p);
    var mid := UpdateDigest(moved).value;
    assert mid.backing.pointer == |f.backing.bytes|;
    assert mid.fed == Zeros(BLOCK_SIZE - |plain|);
    assert CryptRange(key, data, p) == Success(Cipher(key, data, p));
    OverwriteAtEnd(f.backing.bytes, Cipher(key, data, p));
  }

  /**
   * A file of just the magic bytes opens: the rest of the fixed header is
   * read as zeros, giving an empty key and offset 0.  The first `read`
   * then divides by the key length and throws.
   */
  lemma MagicOnlyFileOpens()
    ensures Open(Some(MAGIC)).Success?
    ensures var g := Open(Some(MAGIC)).value;
      && g.head == Header(Some(Zeros(HASH_LENGTH)), 0, [])
      && Read(g, Allocate(1)) == Failure(Arithmetic)
  {
    var block := FixedBlock(MAGIC);
    assert block == MAGIC + Zeros(FIXED_HEADER_LENGTH - 2);
    assert Field(block, MAGIC_OFFSET, MAGIC_LENGTH) == MAGIC;
    assert Field(block, OFFSET_OFFSET, OFFSET_LENGTH) == Zeros(OFFSET_LENGTH);
    assert Field(block, HASH_OFFSET, HASH_LENGTH) == Zeros(HASH_LENGTH);
    assert Field(block, KEYSIZE_OFFSET, KEYSIZE_LENGTH) == Zeros(KEYSIZE_LENGTH);
    ZerosValue(OFFSET_LENGTH);
    ZerosValue(KEYSIZE_LENGTH);
    assert PicoHeader.GetHeader(block) == Success(Header(Some(Zeros(HASH_LENGTH)), 0, []));
    assert StoredHeader(MAGIC) == Header(Some(Zeros(HASH_LENGTH)), 0, []);
  }

  /**
   * `read()` widens the deciphered byte with its sign: a plaintext byte
   * 0xff comes back as -1, the end-of-file value, although the file pointer
   * moved on.
   */
  lemma ReadByteAmbiguous(f: State)
    requires f.open && |f.head.key| > 0 && f.head.offset <= f.backing.pointer < |f.backing.bytes|
    requires f.backing.bytes[f.backing.pointer] ^ f.head.key[(f.backing.pointer - f.head.offset) % |f.head.key|] == 0xff
    ensures ReadByte(f).Success?
    ensures ReadByte(f).value.0 == -1
    ensures ReadByte(f).value.1.backing.pointer == f.backing.pointer + 1
  {
  }
}
