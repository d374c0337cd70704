# Pico encrypted container, modelled in Dafny

Pico wraps a file in a small header followed by its data, enciphered with a
repeating-key XOR. The byte at data position `p` is XORed with
`key[p % key.length]`. The header holds:

- the magic `91 c0`;
- a major and a minor version;
- the data offset;
- a 16-byte hash of the plaintext;
- the key length;
- the key itself.

All numbers are big-endian. Two access paths exist:

- `PicoFile`: random-access reading and writing over a `RandomAccessFile`. It keeps a
  running message digest valid up to a watermark and writes the header,
  with the hash, last.
- `PicoOutputStream` and `PicoInputStream`: a sequential writer, which
  buffers ciphertext in a temporary file until `finish`, and a sequential
  reader.

The model is a set of pure functions over immutable values:

- A Java object becomes a datatype.
- Every method becomes a function from the object before the call to
  `Result<...>`: either the object after the call (with the return value) or
  the exception the call throws.
- A call that never returns is the error `Hangs`.
- `null` is `Option.None`.
- A `RandomAccessFile` is its contents plus its file pointer (`RandomAccess.Raf`).
- A `ByteBuffer` is its backing array, position and limit.
- A `MessageDigest` is the sequence of bytes fed to it since its last reset.

Modules:

- `Bytes`: big-endian integer codecs and Java's signed/unsigned byte conversions.
- `PicoFileOffsets`: the layout constants.
- `Digest`: the hash stand-in.
- `PicoHeader`: the header codec and the cipher.
- `RandomAccess`: the JDK file and buffer objects.
- `PicoFile`: the random-access container.
- `PicoFileProps`: properties of `PicoFile` across several calls.
- `PicoOutputStream` and `PicoInputStream`: the two streams.
- `RoundTrips`: the write/read round trips that combine the two paths.
- `FixtureData` and `Fixture`: the worked example of the test suite.

## Model

| member | source | states |
|---|---|---|
| PicoFileOffsets.LayoutValues | src/ornl/pico/io/PicoFileOffsets.java:51-129 | the fields lie back to back: magic at 0, major at 2, minor at 4, offset at 6, hash at 10, key length at 26, key at 28; a 13-byte key ends at 0x29 |
| Bytes.BigEndianExample | src/ornl/pico/io/PicoFileOffsets.java:36-40 | numbers are stored most significant byte first: 258 in two bytes is `01 02`, and `01 02` reads back as 258 |
| Bytes.SignedRoundTrip | src/java/ornl/pico/io/PicoHeader.java:226-242 | a value that fits the signed field width, written big-endian and read back as a signed Java `short`/`int`, is the value itself |
| Bytes.JavaRem | src/java/ornl/pico/io/PicoHeader.java:99-101 | Java's `%` truncates toward zero: the remainder lies strictly between `-b` and `b`, is non-negative exactly when the dividend is non-negative or divisible, equals Dafny's remainder then, and equals Dafny's remainder minus the divisor otherwise |
| Bytes.SignedByte | src/java/ornl/pico/io/PicoFile.java:458-466 | widening a Java `byte` to `int` keeps its sign: bytes 0x80..0xff become -128..-1 |
| Digest.Hash | src/ornl/pico/io/PicoFileOffsets.java:90-93 | the digest always has exactly `HASH_LENGTH` (16) bytes |
| Digest.ZeroPaddingChangesHash | src/java/ornl/pico/io/PicoFile.java:236-243 | appending zeros whose count is not a multiple of 256 changes the digest, as it changes an MD5 digest, so feeding zeros in place of data is visible in the stored hash |
| PicoHeader.SetKey | src/java/ornl/pico/io/PicoHeader.java:76-86 | a null key throws NullPointerException and an empty key IllegalArgumentException; any other key is stored, the offset is moved to just past it, and the hash is untouched |
| PicoHeader.Clone | src/java/ornl/pico/io/PicoHeader.java:44-51 | the copy equals the original; a header with no hash throws NullPointerException |
| PicoHeader.CryptAt | src/java/ornl/pico/io/PicoHeader.java:99-101 | an empty key throws ArithmeticException; a negative position with a non-zero Java remainder throws IndexOutOfBounds; otherwise the byte is XORed with the key byte at position mod key length |
| PicoHeader.CryptInvolution | src/java/ornl/pico/io/PicoHeader.java:88-101 | enciphering twice at the same position gives the original byte, so one `crypt` serves to encrypt and to decrypt |
| PicoHeader.CipherInvolution | src/java/ornl/pico/io/PicoHeader.java:88-101 | deciphering a run of bytes enciphered from the same start position gives the run back |
| PicoHeader.CipherAppend | src/java/ornl/pico/io/PicoFile.java:512-516 | enciphering a concatenation enciphers the second part at positions continuing after the first, so writing in pieces equals writing at once |
| PicoHeader.CryptRange | src/java/ornl/pico/io/PicoFile.java:440-446 | the per-byte loops of `read`/`write`: no bytes gives no bytes; an empty key throws ArithmeticException; a bad negative start throws IndexOutOfBounds; from a non-negative start the result is the cipher of the data at consecutive positions |
| PicoHeader.CryptRangeBytes | src/java/ornl/pico/io/PicoFile.java:440-446 | for any start, negative ones included, the loop succeeds exactly when every byte's `crypt` at its own position succeeds, and then byte `i` of the result is that byte's `crypt` |
| PicoHeader.VersionRejected | src/java/ornl/pico/io/PicoHeader.java:156-163 | the version test as written never rejects anything: its two conjuncts demand `major > MAJOR` and `major == MAJOR` at once |
| PicoHeader.GetHeader | src/java/ornl/pico/io/PicoHeader.java:118-194 | fewer than 28 bytes throw "Header too short"; the wrong magic throws "Incorrect magic"; a negative key length throws NegativeArraySize; otherwise the header carries the stored hash, the signed offset and a zeroed key buffer of the stored length, and it succeeds in exactly that case |
| PicoHeader.VersionIgnored | src/java/ornl/pico/io/PicoHeader.java:143-163 | replacing the version bytes with any others, a newer major version included, leaves the decoded header unchanged |
| PicoHeader.GetHeaderReadsFixedPart | src/java/ornl/pico/io/PicoHeader.java:118-194 | the decoder depends on the first 28 bytes only: trailing key or data bytes do not change the result |
| PicoHeader.EffectiveOffset | src/java/ornl/pico/io/PicoHeader.java:234 | the stored offset is always positive: a positive offset is kept and a non-positive one becomes the end of the key |
| PicoHeader.PutHeader | src/java/ornl/pico/io/PicoHeader.java:201-254 | with no hash it throws NullPointerException; with a hash shorter than 16 bytes it throws; otherwise the bytes are the magic, the versions, the repaired offset, the first 16 hash bytes, the key length and the key, and the returned header has the repaired offset |
| PicoHeader.HeaderRoundTrip | src/java/ornl/pico/io/PicoHeader.java:118-254 | decoding an encoded header gives back its hash, its repaired offset and a key buffer of its length, and the encoded key follows the fixed part (key shorter than 0x8000, offset fits an `int`) |
| PicoHeader.EncodedFields | src/java/ornl/pico/io/PicoHeader.java:226-247 | each field of an encoded header decodes to what was stored: the magic matches, the key length reads back, the offset reads back repaired, the hash reads back |
| PicoHeader.PutHeaderStable | src/java/ornl/pico/io/PicoHeader.java:233-234 | encoding the repaired header again writes the same bytes and repairs nothing more |
| PicoFile.ResetDigest | src/java/ornl/pico/io/PicoFile.java:216-223 | the digest is emptied and its watermark set to 0; nothing else changes |
| PicoFile.Position | src/java/ornl/pico/io/PicoFile.java:396-398 | a closed file throws; the data position plus the data offset is the file pointer |
| PicoFile.SetPosition | src/java/ornl/pico/io/PicoFile.java:404-407 | a closed file or a negative file position throws; otherwise only the file pointer moves, and `position()` then returns the requested position |
| PicoFile.Size | src/java/ornl/pico/io/PicoFile.java:413-415 | a closed file throws; the data size plus the data offset is the length of the file |
| PicoFile.Read | src/java/ornl/pico/io/PicoFile.java:425-449 | a zero-limit buffer throws; a closed file and the end of the file give -1 and change nothing; an empty key throws ArithmeticException; a successful read moves only the file pointer, by the count, and reads until the buffer is full or the file ends; with a non-empty key it succeeds exactly when the per-byte loop over the bytes read does, wherever the pointer is, inside the header included |
| PicoFile.ReadDeciphers | src/java/ornl/pico/io/PicoFile.java:438-446 | the buffer receives the bytes at the file pointer, each deciphered at its own data position |
| PicoFile.ReadPutsRaw | src/java/ornl/pico/io/PicoFile.java:438-446 | for any file pointer, inside the header included, when the read succeeds: the count returned is the number of bytes the backing file delivered, never more than the buffer's room, and those bytes, each put through `crypt` at its own data position, are put in the buffer |
| PicoFile.ReadByte | src/java/ornl/pico/io/PicoFile.java:458-466 | a closed file or the end of the file gives -1; otherwise the next byte deciphered at its position, widened with its sign, and the file pointer advances by one |
| PicoFile.DigestLoop | src/java/ornl/pico/io/PicoFile.java:234-243 | a watermark already at the target returns at once; a loop that finishes leaves the contents, header and hash flag alone and the watermark at or past the target |
| PicoFile.UpdateDigest | src/java/ornl/pico/io/PicoFile.java:230-244 | a closed file throws; a watermark at the position returns at once; on success the watermark reaches the position and the contents and header are unchanged |
| PicoFile.Truncate | src/java/ornl/pico/io/PicoFile.java:476-481 | an open file gets length size plus offset, keeping the old bytes and zero-filling any extension, with the pointer clamped to the new end; in every case the hash is marked invalid and the digest reset |
| PicoFile.Write | src/java/ornl/pico/io/PicoFile.java:487-520 | a zero-limit buffer throws; a closed file gives -1; it returns the whole array's length, feeds the whole array to the digest, advances the watermark and pointer by it, and writes it ciphered from the starting data position where the digest catch-up left the pointer |
| PicoFile.WriteByte | src/java/ornl/pico/io/PicoFile.java:528-537 | a closed file is left alone; the digest is fed the byte only when the position equals the watermark, the watermark never moves, and the pointer advances by one |
| PicoFile.WriteByteBytes | src/java/ornl/pico/io/PicoFile.java:528-537 | the file receives the low byte of the argument, ciphered by its data position, at the file pointer |
| PicoFile.FixedBlock | src/java/ornl/pico/io/PicoFile.java:258-264 | the array decoded is 28 bytes: the file's first bytes, padded with zeros when the file is shorter |
| PicoFile.FixedRead | src/java/ornl/pico/io/PicoFile.java:258-270 | once the file has the two magic bytes, the first read yields the zero-padded fixed block and leaves the pointer after what it read |
| PicoFile.KeyRead | src/java/ornl/pico/io/PicoFile.java:282-290 | the key read right after the fixed block gets every key byte exactly when the file holds them all, and then they are the bytes after the fixed header |
| PicoFile.StoredHeader | src/java/ornl/pico/io/PicoFile.java:272-290 | the header read from readable contents has a hash and the decoded offset |
| PicoFile.ReadHeader | src/java/ornl/pico/io/PicoFile.java:254-296 | succeeds exactly on readable contents; fewer than two bytes throw "missing magic"; on success the header is the stored one, the hash is marked valid, and the pointer is restored |
| PicoFile.ReadHeaderErrors | src/java/ornl/pico/io/PicoFile.java:266-290 | a fixed block that fails to decode throws the decoder's exception; a file that ends inside the key throws "incomplete key" |
| PicoFile.Open | src/java/ornl/pico/io/PicoFile.java:173-181 | a null file throws NullPointerException (lines 132-134); it succeeds exactly when the header reads and its offset is not negative; the result is open, its hash valid, its digest reset, its header the stored one, and it is at data position 0 |
| PicoFile.Create | src/java/ornl/pico/io/PicoFile.java:90-102 | a null file or key throws NullPointerException and an empty key IllegalArgumentException; otherwise the constructor at lines 192-206 empties the file, holds a header with the key and no hash, and is at data position 0 with the hash invalid |
| PicoFile.GetHeader | src/java/ornl/pico/io/PicoFile.java:313-319 | a header with no hash throws in `clone`; otherwise a copy is returned, without its hash while the hash is not valid |
| PicoFile.ComputeHash | src/java/ornl/pico/io/PicoFile.java:354-366 | succeeds exactly when the digest's catch-up to the end of the file succeeds; the header then stores the hash of the bytes that catch-up fed the digest, the hash is marked valid and the digest reset; contents, key and offset are unchanged |
| PicoFile.WriteHeader | src/java/ornl/pico/io/PicoFile.java:368-373 | the encoded header, with its offset repaired, is written over the front of the file and the pointer is restored; nothing else changes |
| PicoFile.Finish | src/java/ornl/pico/io/PicoFile.java:347-374 | a closed file is left alone; a valid hash is written as is; an invalid one is replaced by the hash `computeHash` computes, and the digest is reset; afterwards the hash is valid, the key is kept, the offset is repaired and the pointer is where it was |
| PicoFile.FinishWritesHeader | src/java/ornl/pico/io/PicoFile.java:347-374 | the file afterwards is the file before with the final header's encoding written over its front |
| PicoFile.Close | src/java/ornl/pico/io/PicoFile.java:380-385 | a closed file is left alone; otherwise it succeeds exactly when `finish` does and leaves the finished file marked closed |
| PicoFileProps.CreateStartsAppending | src/java/ornl/pico/io/PicoFile.java:192-206 | a new file is at the start of its data with an empty digest, and it holds no data |
| PicoFileProps.WriteAppends | src/java/ornl/pico/io/PicoFile.java:487-520 | a write at the watermark returns the count, appends the ciphertext, and keeps the digest, watermark and position in step with all the plaintext written |
| PicoFileProps.AppendCiphertext | src/java/ornl/pico/io/PicoFile.java:512-517 | the ciphertext of new data, written where the old ciphertext ends, extends it to the ciphertext of old plus new |
| PicoFileProps.WriteChunksAppend | src/java/ornl/pico/io/PicoFile.java:487-520 | any sequence of non-empty writes from the watermark keeps the digest fed with exactly the concatenated plaintext and the data area holding its ciphertext |
| PicoFileProps.ConcatSplit | src/java/ornl/pico/io/PicoFile.java:487-520 | the plaintext of two runs of writes is the plaintext of the first followed by that of the second, so a sequence of writes may be split anywhere |
| PicoFileProps.FinalHeader | src/java/ornl/pico/io/PicoFile.java:354-372 | the header `finish` stores after sequential writing: the 16-byte hash of the plaintext, the key, and the data offset just past the key, which the encoder keeps |
| PicoFileProps.FinishHashesPlaintext | src/java/ornl/pico/io/PicoFile.java:347-374 | after sequential writing, `finish` stores the hash of exactly the plaintext written, and the file is the encoded header followed by the ciphertext |
| PicoFileProps.CloseIsFinish | src/java/ornl/pico/io/PicoFile.java:380-385 | closing an open file is finishing it and then marking it closed; when `finish` throws, `close` throws the same exception |
| PicoFileProps.WrittenFile | test/java/ornl/pico/io/test/RoundTrip3.java:61-69 | the file a create-write-close leaves has the 28-byte fixed header, the key and one byte per data byte |
| PicoFileProps.WrittenFixedHeader | src/java/ornl/pico/io/PicoFile.java:258-276 | the fixed block of a written file decodes to the final header with a zeroed key, and the key bytes follow it |
| PicoFileProps.OpenWrittenFile | src/java/ornl/pico/io/PicoFile.java:173-181 | opening a written file succeeds with the final header, key included, a valid hash, and the pointer at the start of the data |
| PicoFileProps.WrittenFileOpens | src/java/ornl/pico/io/PicoFile.java:254-296 | a written file's header reads back as the header `finish` wrote |
| PicoFileProps.ReadChunk | test/java/ornl/pico/io/test/RoundTrip3.java:80-81 | one `clear` and `read`: -1 or 0 only at the end of the file, with nothing changed; otherwise the front of the buffer holds the next bytes deciphered and only the pointer advances |
| PicoFileProps.ReadStep | test/java/ornl/pico/io/test/RoundTrip3.java:78-91 | one pass of the read loop keeps what was collected equal to the data deciphered so far; a non-positive count means the end of the file, a positive one means progress |
| PicoFileProps.ReadToEnd | test/java/ornl/pico/io/test/RoundTrip3.java:71-94 | reading in chunks until `read` stops yields the rest of the data area deciphered, and leaves the pointer at the end |
| PicoFileProps.FileRoundTrip | test/java/ornl/pico/io/test/RoundTrip3.java:61-94 | create, write, close, open, then reading to the end gives the data back |
| PicoFileProps.FinishIdempotent | src/java/ornl/pico/io/PicoFile.java:347-374 | a second `finish` right after the first changes nothing |
| PicoFileProps.ClosedFileIsInert | src/java/ornl/pico/io/PicoFile.java:380-385 | after `close`, closing, finishing and writing change nothing and both reads return -1 |
| PicoFileProps.TruncateSetsSize | src/java/ornl/pico/io/PicoFile.java:476-481 | after `truncate(size)`, `size()` returns `size` |
| PicoFileProps.GetHeaderAfterCreateThrows | src/java/ornl/pico/io/PicoFile.java:313-319 | on a newly created file `getHeader` throws, because the header has no hash to clone |
| PicoFileProps.WriteKeepsStaleHash | src/java/ornl/pico/io/PicoFile.java:487-520 | after `open` and a `write` the hash stays marked valid, so `finish` writes back the hash read from the file whatever the write changed |
| PicoFileProps.WriteIgnoresWindow | src/java/ornl/pico/io/PicoFile.java:503-505 | `write` of a buffer with any position and limit is `write` of its whole backing array |
| PicoFileProps.DigestLoopOneBlock | src/java/ornl/pico/io/PicoFile.java:234-243 | when one block reaches the target, the loop reads the rest of the file, advances the watermark by its length, and feeds the digest the unfilled zero tail of the block instead of the data |
| PicoFileProps.WriteByteThenFinish | src/java/ornl/pico/io/PicoFile.java:528-537 | `write(int)` at the watermark feeds the digest but does not move the watermark, so `finish` hashes the byte followed by 16383 zeros |
| PicoFileProps.WriteByteHashIsWrong | src/java/ornl/pico/io/PicoFile.java:528-537 | after sequential writing, `write(int)` then `finish` stores a hash that differs from the hash of the plaintext the file now holds |
| PicoFileProps.WritePastEndHangs | src/java/ornl/pico/io/PicoFile.java:234-243 | seeking past the end of the data and writing never returns: the catch-up loop reads -1 forever |
| PicoFileProps.BackwardWriteAppends | src/java/ornl/pico/io/PicoFile.java:230-244 | in a file whose data fits in one 16384-byte block, seeking back into the data and writing appends at the end of the file, ciphered for the requested position, and the digest is fed zeros instead of the old data |
| PicoFileProps.MagicOnlyFileOpens | src/java/ornl/pico/io/PicoFile.java:258-276 | a file holding only the two magic bytes opens with a zero hash, offset 0 and an empty key, and its first `read` throws ArithmeticException |
| PicoFileProps.ReadByteAmbiguous | src/java/ornl/pico/io/PicoFile.java:458-466 | a plaintext byte 0xff is returned as -1, the end-of-file value, although the pointer moved on |
| PicoOutputStream.Construct | src/java/ornl/pico/io/PicoOutputStream.java:67-87 | a null key or stream throws NullPointerException and an empty key IllegalArgumentException; otherwise the stream holds the key, no hash, an empty digest and temporary file, position 0, and the wrapped stream untouched |
| PicoOutputStream.Write | src/java/ornl/pico/io/PicoOutputStream.java:92-104 | the low byte is fed to the digest and its ciphertext at the current position is appended to the temporary file, and the position advances by one; after `finish` it throws |
| PicoOutputStream.Finish | src/java/ornl/pico/io/PicoOutputStream.java:123-145 | the wrapped stream receives the header holding the digest of everything fed, then all the buffered ciphertext; the digest is reset and the temporary file closed and deleted |
| PicoOutputStream.Close | src/java/ornl/pico/io/PicoOutputStream.java:109-113 | closing succeeds exactly when `finish` does, and then closes the wrapped stream |
| PicoOutputStream.WriteBytes | test/java/ornl/pico/io/test/RoundTrip.java:83 | writing no bytes changes nothing (what longer writes do is stated by WriteBytesKeepsWriting) |
| PicoOutputStream.ConstructWriting | src/java/ornl/pico/io/PicoOutputStream.java:67-87 | a new stream is ready to write: position and digest empty, ciphertext empty, offset just past the key |
| PicoOutputStream.LowSignedByte | src/java/ornl/pico/io/PicoOutputStream.java:96 | masking a sign-widened byte with 0xff gives the byte back, so the inherited array write passes bytes through intact |
| PicoOutputStream.WriteKeepsWriting | src/java/ornl/pico/io/PicoOutputStream.java:92-104 | each `write` feeds the digest one more byte and keeps the temporary file equal to the ciphertext of everything fed |
| PicoOutputStream.WriteBytesKeepsWriting | src/java/ornl/pico/io/PicoOutputStream.java:92-104 | writing an array feeds the digest exactly that array and keeps the temporary file its ciphertext |
| PicoOutputStream.FinishWrites | src/java/ornl/pico/io/PicoOutputStream.java:123-145 | `finish` after writing appends the header with the hash of all bytes written and the offset just past the key, then their ciphertext from position 0 |
| PicoOutputStream.NeverClosed | src/java/ornl/pico/io/PicoOutputStream.java:54 | no operation sets `_closed`, so its guards never fire |
| PicoOutputStream.FinishIsFinal | src/java/ornl/pico/io/PicoOutputStream.java:123-145 | after `finish`, writing, finishing again and closing all throw |
| PicoInputStream.DataStart | src/java/ornl/pico/io/PicoInputStream.java:52-79 | the data begins right after the key (or at the end of a stream shorter than the fixed header), within the stream |
| PicoInputStream.Construct | src/java/ornl/pico/io/PicoInputStream.java:44-79 | a null stream throws NullPointerException; fewer than two bytes throw "missing magic"; on success the position is 0 and the wrapped bytes are those given |
| PicoInputStream.ConstructReadsHeader | src/java/ornl/pico/io/PicoInputStream.java:52-79 | the stream accepts exactly the contents `PicoFile`'s `_readHeader` accepts (`PicoFile.HeaderReadable`), fails with the same exception otherwise, and yields the same header with the wrapped stream right after the key |
| PicoInputStream.NegativeOffsetStreamOnly | src/java/ornl/pico/io/PicoFile.java:172-180 | `open` accepts less than the stream: a readable header whose stored data offset is negative is accepted by the stream, which never uses the offset, while `open` throws, because its `position(0)` seeks to that negative offset |
| PicoInputStream.ConstructDecodeFails | src/java/ornl/pico/io/PicoInputStream.java:66-67 | a fixed header that does not decode makes the constructor throw the decoder's exception |
| PicoInputStream.ConstructKeyShort | src/java/ornl/pico/io/PicoInputStream.java:69-76 | a stream that ends inside the key throws "incomplete key" |
| PicoInputStream.ConstructFindsHeader | src/java/ornl/pico/io/PicoInputStream.java:52-79 | on readable contents the stream holds `PicoFile`'s header and stands right after the key |
| PicoInputStream.GetHeader | src/java/ornl/pico/io/PicoInputStream.java:87-89 | a copy of the header; a header without hash throws NullPointerException |
| PicoInputStream.Read | src/java/ornl/pico/io/PicoInputStream.java:95-104 | -1 at the end with nothing changed; an empty key throws; otherwise the next byte deciphered at the position, as 0..255, and both the stream and the position advance by one |
| PicoInputStream.ReadRange | src/java/ornl/pico/io/PicoInputStream.java:95-104 | `read()` returns -1 or a value in 0..255, and -1 exactly at the end, so a byte 0xff is never mistaken for the end |
| PicoInputStream.ReadToEnd | test/java/ornl/pico/io/test/RoundTrip.java:112-134 | reading until -1 yields the rest of the wrapped stream deciphered from the current position, and the position counts what was read |
| RoundTrips.StreamOutput | test/java/ornl/pico/io/test/RoundTrip.java:76-85 | the bytes an output stream leaves in the wrapped stream after writing the data and closing; an empty key throws IllegalArgument |
| RoundTrips.StreamWritesFile | src/java/ornl/pico/io/PicoOutputStream.java:123-145 | the output stream appends byte for byte the file a `PicoFile` create-write-close produces for the same key and data |
| RoundTrips.StreamOpensWrittenFile | src/java/ornl/pico/io/PicoInputStream.java:44-79 | an input stream on a written file holds the final header and stands at the data, at position 0 |
| RoundTrips.WrittenFileData | src/java/ornl/pico/io/PicoFile.java:512-516 | after the header and key, a written file holds the data ciphered from position 0 |
| RoundTrips.ReadWrittenFile | test/java/ornl/pico/io/test/RoundTrip.java:112-134 | an input stream reading a written file to the end returns the data |
| RoundTrips.StreamRoundTrip | test/java/ornl/pico/io/test/RoundTrip.java:76-134 | writing through an output stream and reading back through an input stream gives the data back |
| RoundTrips.StreamToFile | test/java/ornl/pico/io/test/RoundTrip.java:87-110 | the output stream's bytes opened as a `PicoFile` and read in chunks give the data back |
| RoundTrips.FileToStream | test/java/ornl/pico/io/test/RoundTrip3.java:96-118 | a file written by `PicoFile` and read by an input stream gives the data back |
| FixtureData.FixtureCiphertext | test/java/ornl/pico/io/test/RoundTrip.java:56-71 | the example data enciphered with the example key is the ciphertext the test lists |
| Fixture.FixtureFields | test/java/ornl/pico/io/test/RoundTrip.java:56-71 | in the example header the versions are `00 00`, the offset is `00 00 00 29` and the key length is `00 0d` |
| Fixture.FixtureHeader | test/java/ornl/pico/io/test/RoundTrip.java:56-71 | the example's encoded header is magic, versions, offset 0x29, the hash, key length 13, then the key |
| Fixture.FixtureFile | test/java/ornl/pico/io/test/RoundTrip.java:56-85 | the example file the output stream writes is that header followed by the listed ciphertext, 77 bytes in all |

## Left out

- I/O failures of the JDK are not modelled: disk errors, a stream closed underneath, `available()` and short reads from a stream. The wrapped input stream delivers everything it holds on each bulk read, as an in-memory or file stream does. A closed `RandomAccessFile` throws `IO`.
- The temporary file of `PicoOutputStream` is a byte sequence plus two flags. Its name, its creation and `deleteOnExit` are left out. So is the copy loop's buffering, because it copies the whole file.
- MD5 is not modelled. `Digest.Hash` is a 16-byte XOR fold of the bytes fed, with their count (mod 256) folded into the first byte. The properties only need a 16-byte value that is a function of those bytes and that sees appended zeros (`Digest.ZeroPaddingChangesHash`), so nothing here depends on MD5 itself. The test's listed hash bytes are therefore not pinned (`Fixture.FixtureFile` leaves them as `Hash(DATA)`).
- Java `long` arithmetic overflow is not modelled. Positions, offsets and watermarks are unbounded integers, which the Java values match below 2^63.
- The narrowing casts of `putHeader` are modelled: only the low bytes of the key length and offset are stored (`Bytes.ToBE`). The round-trip lemmas therefore ask for a key shorter than 0x8000 and an offset that fits an `int`. Lengths are stored modulo 0x10000: a key of 0x8000 to 0xFFFF bytes has its length decoded negative, and one of 0x10000 bytes has it stored as 0.
- The state of an object after an exception is not modelled: a failed call returns only the exception. In particular, `putHeader` repairs the offset before a short hash makes it throw.
- `getHeader(null)` in `PicoHeader` is not modelled, because both callers pass an array. A null buffer passed to `PicoFile.read` or `PicoFile.write` is not modelled either; it throws NullPointerException before anything else happens.
- The null key of a `new PicoHeader()` is not modelled. It is always replaced before anything can read it, so it is represented by the empty key.
- The `String`-named factories `create(String, byte[])` and `open(String)` are not modelled. They repeat the `File` versions.
- `PicoHeader.toString`, `KeyUtils`, `PicoException`'s text and the Java `assert` statements in the constructors are not modelled.
- The keyless `PicoFile.create(tmpfile)` that the `RoundTrip3` setup calls is not modelled. The class defines no such method, so the model's `FileRoundTrip` uses `create(file, key)`.
- PicoFile.Write: the bytes written are stated only when the pointer is at or past the data offset. Before it, the data position is negative, and only the failure/success split is stated.
- PicoFile.DigestLoop: only the general effect of the loop is stated. What it feeds the digest is stated by `PicoFileProps.DigestLoopOneBlock` for the one-block case, and the hang by `PicoFileProps.WritePastEndHangs`.
- PicoFileProps.ReadStep: when `read` reports the end, the pointer is stated to be at the end of the file. That the object is otherwise unchanged is not stated.

## Where the code departs from its comments

These are properties of the code as written. They are stated as lemmas rather than repaired, because both access paths and the tests rely on the sequential behaviour, which is correct.

- The version check in `getHeader` can never reject a file (`PicoHeader.VersionRejected`, `PicoHeader.VersionIgnored`).
- `_updateDigest` feeds the digest the part of each block the read did not fill, not the part it did (`PicoFileProps.DigestLoopOneBlock`). The loop also adds the -1 of a read at the end of the file to the watermark and never terminates (`PicoFileProps.WritePastEndHangs`). After a backward seek to data position `p`, the loop leaves the pointer at the first block boundary at or past `p`, or at the end of the file if that comes first, and the new bytes land there: at the end of a file of at most one block (`PicoFileProps.BackwardWriteAppends`), over later data in a longer one. On the sequential path the loop returns at once, and the hash is right (`PicoFileProps.FinishHashesPlaintext`).
- `write(ByteBuffer)` uses the whole backing array, whatever the buffer's position and limit (`PicoFileProps.WriteIgnoresWindow`). It does not mark the hash invalid, so `finish` after `open` and `write` writes the stale hash back (`PicoFileProps.WriteKeepsStaleHash`).
- `write(int)` never advances the watermark (`PicoFileProps.WriteByteThenFinish`), so the hash `finish` then stores is not the hash of the plaintext (`PicoFileProps.WriteByteHashIsWrong`).
- `read()` of `PicoFile` returns a sign-widened byte, so 0xff reads as -1 (`PicoFileProps.ReadByteAmbiguous`). `PicoInputStream.read()` masks it (`PicoInputStream.ReadRange`).
- `getHeader` right after `create` throws, because the hash is still null (`PicoFileProps.GetHeaderAfterCreateThrows`).
- A two-byte file holding only the magic opens, with an empty key (`PicoFileProps.MagicOnlyFileOpens`).
- `PicoInputStream` ignores the stored data offset and starts the data right after the key (`PicoInputStream.DataStart`). So it accepts a file with a negative offset, which `PicoFile.open` rejects (`PicoInputStream.NegativeOffsetStreamOnly`).
- `PicoOutputStream._closed` is never set, so `finish` cannot be repeated and `close` cannot be called twice (`PicoOutputStream.NeverClosed`, `PicoOutputStream.FinishIsFinal`).
