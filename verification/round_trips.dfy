/**
 * The two writers and the two readers agree: a `PicoOutputStream` produces
 * byte for byte the file that `PicoFile` produces by creating, writing
 * sequentially and closing, and either reader gets the data back from it.
 */
module RoundTrips {
  import opened Wrappers
  import opened Bytes
  import opened PicoFileOffsets
  import opened PicoHeader
  import opened RandomAccess
  import opened Digest
  import opened PicoFile
  import opened PicoFileProps
  import Out = PicoOutputStream
  import In = PicoInputStream

  /** The bytes an output stream leaves in the wrapped stream after `write(data)` and `close()`. */
  function StreamOutput(key: seq<byte>, os: seq<byte>, data: seq<byte>): (r: Result<seq<byte>>)
    ensures |key| == 0 ==> r == Failure(IllegalArgument)
  {
    var s :- Out.Construct(Some(key), Some(os));
    var w :- Out.WriteBytes(s, data);
    var c :- Out.Close(w);
    Success(c.out)
  }

  /**
   * Writing through an output stream appends to the wrapped stream exactly
   * the file `PicoFile` writes for the same key and data: the header with
   * the hash of the data, then the data ciphered from position 0.
   */
  lemma StreamWritesFile(key: seq<byte>, os: seq<byte>, data: seq<byte>)
    requires |key| > 0
    ensures StreamOutput(key, os, data) == Success(os + WrittenFile(key, data))
    ensures os == [] ==> StreamOutput(key, os, data) == Success(WrittenFile(key, data))
  {
    Out.ConstructWriting(key, os);
    var s := Out.Construct(Some(key), Some(os)).value;
    Out.WriteBytesKeepsWriting(s, data);
    var w := Out.WriteBytes(s, data).value;
    assert w.fed == data by {
      assert s.fed + data == data;
    }
    var h := FinalHeader(key, data);
    assert Header(Some(Hash(w.fed)), KEY_OFFSET + |w.head.key|, w.head.key) == h;
    Out.FinishWrites(w);
    var hb := PutHeader(h).value.0;
    var fin := Out.Finish(w).value;
    var body := Cipher(key, data, 0);
    assert fin.out == os + hb + body;
    assert WrittenFile(key, data) == hb + body;
    AppendAssoc(os, hb, body);
    assert [] + WrittenFile(key, data) == WrittenFile(key, data);
  }

  /** An input stream opened on a sequentially written file has its header and starts at the data. */
  lemma StreamOpensWrittenFile(key: seq<byte>, data: seq<byte>)
    requires 0 < |key| < 0x8000
    ensures In.Construct(Some(WrittenFile(key, data))).Success?
    ensures var s := In.Construct(Some(WrittenFile(key, data))).value;
      && s.head == FinalHeader(key, data)
      && s.source == Raf(WrittenFile(key, data), KEY_OFFSET + |key|)
      && s.position == 0
      && In.GetHeader(s) == Success(FinalHeader(key, data))
  {
    WrittenFileOpens(key, data);
    In.ConstructReadsHeader(WrittenFile(key, data));
  }

  /** After the header and key, a sequentially written file holds the data ciphered from position 0. */
  lemma WrittenFileData(key: seq<byte>, data: seq<byte>)
    requires |key| > 0
    ensures WrittenFile(key, data)[KEY_OFFSET + |key|..] == Cipher(key, data, 0)
  {
    var hb := PutHeader(FinalHeader(key, data)).value.0;
    assert |hb| == KEY_OFFSET + |key|;
    assert (hb + Cipher(key, data, 0))[|hb|..] == Cipher(key, data, 0);
  }

  /** An input stream reading a sequentially written file to the end gets the data back. */
  method ReadWrittenFile(key: seq<byte>, data: seq<byte>) returns (back: seq<byte>)
    requires 0 < |key| < 0x8000
    ensures back == data
  {
    StreamOpensWrittenFile(key, data);
    var s := In.Construct(Some(WrittenFile(key, data))).value;
    var t;
    back, t := In.ReadToEnd(s);
    WrittenFileData(key, data);
    CipherInvolution(key, data, 0);
  }

  /** The stream round trip: the output stream's bytes, read by an input stream to the end, give the data back. */
  method StreamRoundTrip(key: seq<byte>, data: seq<byte>) returns (back: seq<byte>)
    requires 0 < |key| < 0x8000
    ensures StreamOutput(key, [], data).Success?
    ensures back == data
  {
    StreamWritesFile(key, [], data);
    back := ReadWrittenFile(key, data);
  }

  /** The output stream's bytes opened as a `PicoFile` and read to the end give the data back. */
  method StreamToFile(key: seq<byte>, data: seq<byte>, capacity: nat) returns (back: seq<byte>)
    requires 0 < |key| < 0x8000 && capacity > 0
    ensures StreamOutput(key, [], data).Success?
    ensures back == data
  {
    StreamWritesFile(key, [], data);
    var file := WrittenFile(key, data);
    OpenWrittenFile(key, data);
    var f := Open(Some(file)).value;
    var g;
    back, g := PicoFileProps.ReadToEnd(f, capacity);
    WrittenFileData(key, data);
    CipherInvolution(key, data, 0);
  }

  /** A file written by `PicoFile`, read by an input stream to the end, gives the data back. */
  method FileToStream(file: seq<byte>, key: seq<byte>, data: seq<byte>) returns (back: seq<byte>)
    requires 0 < |key| < 0x8000 && |data| > 0
    ensures back == data
  {
    CreateStartsAppending(file, key);
    var f := Create(Some(file), Some(key)).value;
    WriteAppends(f, [], data);
    assert [] + data == data;
    var w := Write(f, Wrap(data)).value.1;
    FinishHashesPlaintext(w, data);
    CloseIsFinish(w);
    var written := Close(w).value.backing.bytes;
    assert written == WrittenFile(key, data);
    back := ReadWrittenFile(key, data);
  }
}
