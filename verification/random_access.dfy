/**
 * The Java I/O objects the container is built on, as values: a
 * `RandomAccessFile` (contents plus file pointer) and a `ByteBuffer`
 * (backing array, position and limit).
 */
module RandomAccess {
  import opened Wrappers
  import opened Bytes

  /** A `RandomAccessFile`.  The file pointer may lie past the end of the file. */
  datatype Raf = Raf(bytes: seq<byte>, pointer: nat)

  /** `seek(pos)`: a negative position throws. */
  function Seek(f: Raf, pos: int): (r: Result<Raf>)
    ensures r.Failure? <==> pos < 0
    ensures r.Failure? ==> r.error == IO
    ensures r.Success? ==> r.value.bytes == f.bytes && r.value.pointer == pos
  {
    if pos < 0 then Failure(IO) else Success(f.(pointer := pos))
  }

  /** The outcome of a bulk read: the count Java returns, the bytes read, and the file afterwards. */
  datatype RafRead = RafRead(count: int, data: seq<byte>, file: Raf)

  /**
   * `read(b, 0, n)`: returns 0 when asked for nothing, -1 at or past the end
   * of the file, and otherwise reads as many of the `n` bytes as the file
   * still holds.
   */
  function ReadInto(f: Raf, n: nat): (r: RafRead)
    ensures r.file.bytes == f.bytes
    ensures n == 0 ==> r == RafRead(0, [], f)
    ensures n > 0 && f.pointer >= |f.bytes| ==> r == RafRead(-1, [], f)
    ensures n > 0 && f.pointer < |f.bytes| ==>
      && 1 <= r.count <= n
      && r.count == |r.data|
      && (r.count == n || f.pointer + r.count == |f.bytes|)
      && f.pointer + r.count <= |f.bytes|
      && r.data == f.bytes[f.pointer..f.pointer + r.count]
      && r.file.pointer == f.pointer + r.count
  {
    if n == 0 then RafRead(0, [], f)
    else if f.pointer >= |f.bytes| then RafRead(-1, [], f)
    else
      var count := if |f.bytes| - f.pointer < n then |f.bytes| - f.pointer else n;
      RafRead(count, f.bytes[f.pointer..f.pointer + count], f.(pointer := f.pointer + count))
  }

  /** `read()`: the next byte as 0..255, or -1 at or past the end of the file. */
  function ReadNext(f: Raf): (r: (int, Raf))
    ensures r.1.bytes == f.bytes
    ensures f.pointer >= |f.bytes| ==> r == (-1, f)
    ensures f.pointer < |f.bytes| ==> r.0 == f.bytes[f.pointer] as int && r.1.pointer == f.pointer + 1
  {
    if f.pointer >= |f.bytes| then (-1, f)
    else (f.bytes[f.pointer] as int, f.(pointer := f.pointer + 1))
  }

  /** `write(b)`: overwrites at the file pointer, extending the file if needed, and advances the pointer. */
  function WriteOut(f: Raf, data: seq<byte>): (g: Raf)
    ensures g.pointer == f.pointer + |data|
    ensures g.bytes == Overwrite(f.bytes, f.pointer, data)
  {
    Raf(Overwrite(f.bytes, f.pointer, data), f.pointer + |data|)
  }

  /**
   * `setLength(n)`: truncates or zero-extends the file; a file pointer past
   * the new end moves to the new end.  A negative length throws.
   */
  function SetLength(f: Raf, n: int): (r: Result<Raf>)
    ensures r.Failure? <==> n < 0
    ensures r.Failure? ==> r.error == IO
    ensures r.Success? ==>
      && |r.value.bytes| == n
      && (forall i | 0 <= i < n :: r.value.bytes[i] == if i < |f.bytes| then f.bytes[i] else 0)
      && r.value.pointer == if f.pointer > n then n else f.pointer
  {
    if n < 0 then Failure(IO)
    else
      var bytes := if n <= |f.bytes| then f.bytes[..n] else f.bytes + Zeros(n - |f.bytes|);
      Success(Raf(bytes, if f.pointer > n then n else f.pointer))
  }

  /** A heap `ByteBuffer`: its whole backing array, its position and its limit. */
  datatype ByteBuffer = ByteBuffer(contents: seq<byte>, position: nat, limit: nat) {

    predicate Valid() {
      position <= limit <= |contents|
    }

    function Remaining(): nat
      requires Valid()
    {
      limit - position
    }

    /** `put(data, 0, n)`: copies `data` in at the position and advances it. */
    function Put(data: seq<byte>): (b: ByteBuffer)
      requires Valid() && |data| <= Remaining()
      ensures b.Valid()
      ensures |b.contents| == |contents| && b.limit == limit
      ensures b.position == position + |data|
      ensures b.contents[position..position + |data|] == data
      ensures forall i | 0 <= i < |contents| && !(position <= i < position + |data|) :: b.contents[i] == contents[i]
    {
      ByteBuffer(contents[..position] + data + contents[position + |data|..], position + |data|, limit)
    }

    /** `clear()`: position 0, limit at the capacity; the contents stay. */
    function Clear(): (b: ByteBuffer)
      ensures b.Valid() && b.contents == contents && b.position == 0 && b.limit == |contents|
    {
      ByteBuffer(contents, 0, |contents|)
    }
  }

  /** `ByteBuffer.allocate(n)`: `n` zero bytes, position 0, limit `n`. */
  function Allocate(n: nat): (b: ByteBuffer)
    ensures b.Valid() && b.contents == Zeros(n) && b.position == 0 && b.limit == n
  {
    ByteBuffer(Zeros(n), 0, n)
  }

  /** `ByteBuffer.wrap(a)`: the whole array, position 0, limit at its end. */
  function Wrap(a: seq<byte>): (b: ByteBuffer)
    ensures b.Valid() && b.contents == a && b.position == 0 && b.limit == |a|
  {
    ByteBuffer(a, 0, |a|)
  }
}
