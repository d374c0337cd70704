/**
 * Bytes and the Java integer conversions the Pico code relies on: big-endian
 * numeric fields (`ByteBuffer` with `ByteOrder.BIG_ENDIAN`), narrowing casts,
 * sign extension of `byte`, `& 0xff`, and Java's truncating remainder.
 */
module Bytes {

  type byte = bv8

  /** 256 to the power `w`: one more than the largest unsigned `w`-byte value. */
  function Pow256(w: nat): (p: nat)
    ensures p >= 1
  {
    if w == 0 then 1 else 256 * Pow256(w - 1)
  }

  /** The ranges of a Java `short` (2 bytes) and `int` (4 bytes). */
  lemma Pow256Values()
    ensures Pow256(2) == 0x1_0000
    ensures Pow256(4) == 0x1_0000_0000
  {
    assert Pow256(1) == 256;
    assert Pow256(3) == 256 * Pow256(2);
  }

  /** The unsigned value of `s` read most significant byte first. */
  function UnsignedBE(s: seq<byte>): (n: nat)
    ensures n < Pow256(|s|)
  {
    if |s| == 0 then 0
    else UnsignedBE(s[..|s| - 1]) * 256 + s[|s| - 1] as nat
  }

  /** Concatenation regroups freely. */
  lemma AppendAssoc(a: seq<byte>, b: seq<byte>, c: seq<byte>)
    ensures a + b + c == a + (b + c)
  {
  }

  /** The byte holding the value `k`, counted up from zero. */
  function ByteOf(k: nat): (b: byte)
    requires k < 256
    ensures b as nat == k
  {
    if k == 0 then 0 else ByteOf(k - 1) + 1
  }

  /** The `w`-byte big-endian representation of `n`. */
  function NatToBE(n: nat, w: nat): (r: seq<byte>)
    requires n < Pow256(w)
    ensures |r| == w
    ensures UnsignedBE(r) == n
  {
    if w == 0 then []
    else
      assert n / 256 < Pow256(w - 1) by {
        assert n < 256 * Pow256(w - 1);
      }
      var hi := NatToBE(n / 256, w - 1);
      var lo := ByteOf(n % 256);
      var r := hi + [lo];
      assert r[..w - 1] == hi;
      r
  }

  /** Zero in any width is all zero bytes. */
  lemma {:induction false} NatToBEZero(w: nat)
    ensures NatToBE(0, w) == Zeros(w)
  {
    if w > 0 {
      NatToBEZero(w - 1);
      assert Zeros(w) == Zeros(w - 1) + [0];
    }
  }

  /** A value below 256 is zero bytes followed by the value's byte. */
  lemma NatToBEByte(n: nat, w: nat)
    requires 1 <= w && n < 256
    ensures NatToBE(n, w) == Zeros(w - 1) + [ByteOf(n)]
  {
    assert n / 256 == 0 && n % 256 == n;
    NatToBEZero(w - 1);
  }

  /**
   * Java's narrowing cast of `x` to a `w`-byte integer followed by a
   * big-endian put: the low `w` bytes of the two's-complement value.
   */
  function ToBE(x: int, w: nat): (r: seq<byte>)
    ensures |r| == w
    ensures UnsignedBE(r) == x % Pow256(w)
  {
    NatToBE(x % Pow256(w), w)
  }

  /** Zero bytes hold the value zero, signed or not. */
  lemma {:induction false} ZerosValue(n: nat)
    ensures UnsignedBE(Zeros(n)) == 0
    ensures n >= 1 ==> SignedBE(Zeros(n)) == 0
  {
    if n > 0 {
      ZerosValue(n - 1);
      assert Zeros(n)[..n - 1] == Zeros(n - 1);
      HalfPow(n);
    }
  }

  /** Java's `getShort`/`getInt`: the two's-complement value of `s`. */
  function SignedBE(s: seq<byte>): (n: int)
    requires |s| >= 1
    ensures -(Pow256(|s|) / 2) <= n < Pow256(|s|) / 2
    ensures n >= 0 <==> UnsignedBE(s) < Pow256(|s|) / 2
    ensures n % Pow256(|s|) == UnsignedBE(s)
  {
    var u := UnsignedBE(s);
    var p := Pow256(|s|);
    HalfPow(|s|);
    if u >= p / 2 then
      ModShift(u, p);
      u - p
    else
      ModSmall(u, p);
      u
  }

  lemma HalfPow(w: nat)
    requires w >= 1
    ensures Pow256(w) % 2 == 0 && Pow256(w) / 2 >= 128
  {
    if w > 1 {
      HalfPow(w - 1);
    }
  }

  lemma ModSmall(x: int, p: int)
    requires 0 <= x < p
    ensures x % p == x
  {
  }

  lemma ModShift(x: int, p: int)
    requires 0 <= x < p
    ensures (x - p) % p == x
  {
    assert x - p == p * (-1) + x;
  }

  /**
   * Writing a value that fits the signed `w`-byte range and reading it back
   * as a signed number gives the value again.
   */
  lemma {:induction false} SignedRoundTrip(x: int, w: nat)
    requires w >= 1
    requires -(Pow256(w) / 2) <= x < Pow256(w) / 2
    ensures SignedBE(ToBE(x, w)) == x
  {
    var p := Pow256(w);
    HalfPow(w);
    if x >= 0 {
      ModSmall(x, p);
    } else {
      ModShift(x + p, p);
      assert x % p == x + p;
    }
  }

  /** The number 258 is stored as the bytes 01 02. */
  lemma BigEndianExample()
    ensures ToBE(258, 2) == [0x01, 0x02]
    ensures SignedBE([0x01, 0x02]) == 258
  {
    assert Pow256(2) == 65536;
    assert UnsignedBE([0x01]) == 1;
    assert [0x01, 0x02][..1] == [0x01];
  }

  /** Java's widening of a (signed) `byte` to `int`. */
  function SignedByte(b: byte): (v: int)
    ensures -128 <= v < 128
    ensures v % 256 == b as int
  {
    if b as int >= 128 then b as int - 256 else b as int
  }

  /** Widening a byte to a natural number and narrowing it back gives the byte. */
  lemma ByteOfAsNat(b: byte)
    ensures ByteOf(b as nat) == b
  {
  }

  /** Java's `datum & 0xff`, taken as a byte. */
  function LowByte(datum: int): (b: byte)
    ensures b as int == datum % 256
  {
    ByteOf(datum % 256)
  }

  /** Java's `a % b`: the remainder takes the sign of the dividend. */
  function JavaRem(a: int, b: int): (r: int)
    requires b > 0
    ensures -b < r < b
    ensures r >= 0 <==> a >= 0 || a % b == 0
    ensures r >= 0 ==> r == a % b
    ensures r < 0 ==> r == a % b - b
  {
    if a >= 0 then a % b
    else
      var q, m := (-a) / b, (-a) % b;
      if m == 0 then
        DivModUnique(a, b, -q, 0);
        0
      else
        DivModUnique(a, b, -q - 1, b - m);
        -m
  }

  /** The remainder is determined by any quotient/remainder decomposition. */
  lemma DivModUnique(a: int, b: int, q: int, r: int)
    requires b > 0 && 0 <= r < b && a == b * q + r
    ensures a % b == r
  {
    var q0, r0 := a / b, a % b;
    if q > q0 {
      assert b * (q - q0) == r0 - r;
      MulAtLeast(b, q - q0);
    } else if q < q0 {
      assert b * (q0 - q) == r - r0;
      MulAtLeast(b, q0 - q);
    }
  }

  lemma MulAtLeast(b: int, k: int)
    requires b > 0 && k >= 1
    ensures b * k >= b
  {
  }

  /** `n` zero bytes: what a fresh Java array or a file extension holds. */
  function Zeros(n: nat): (r: seq<byte>)
    ensures |r| == n
    ensures forall i | 0 <= i < n :: r[i] == 0
  {
    seq(n, _ => 0)
  }

  /**
   * The contents of a file after writing `data` at offset `at`.  Writing past
   * the end extends the file; the gap reads as zero bytes.
   */
  function Overwrite(s: seq<byte>, at: nat, data: seq<byte>): (r: seq<byte>)
    ensures |r| == if at + |data| > |s| then at + |data| else |s|
    ensures forall i | 0 <= i < |r| ::
      r[i] == if at <= i < at + |data| then data[i - at] else if i < |s| then s[i] else 0
  {
    var padded := if |s| < at then s + Zeros(at - |s|) else s;
    padded[..at] + data + (if at + |data| < |padded| then padded[at + |data|..] else [])
  }

  /** Rewriting the same bytes at the same place changes nothing. */
  lemma OverwriteTwice(s: seq<byte>, at: nat, data: seq<byte>)
    ensures Overwrite(Overwrite(s, at, data), at, data) == Overwrite(s, at, data)
  {
  }

  /** A slice that lies within the first part of a concatenation is a slice of that part. */
  lemma SliceOfAppend(a: seq<byte>, b: seq<byte>, i: nat, j: nat)
    requires i <= j <= |a|
    ensures (a + b)[i..j] == a[i..j]
  {
  }

  /** Writing at the front replaces the front: what lay beyond the written bytes stays. */
  lemma OverwriteFront(s: seq<byte>, data: seq<byte>)
    ensures Overwrite(s, 0, data) == data + (if |data| < |s| then s[|data|..] else [])
  {
  }

  /** Writing at the end of a file appends. */
  lemma OverwriteAtEnd(s: seq<byte>, data: seq<byte>)
    ensures Overwrite(s, |s|, data) == s + data
  {
  }
}
