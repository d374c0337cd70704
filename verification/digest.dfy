/**
 * The message digest.  MD5 itself is not modelled: `Hash` is a stand-in that
 * yields `HASH_LENGTH` bytes and depends only on the bytes fed, which is all
 * the rest of the model relies on.  A `MessageDigest` object is represented
 * by the sequence of bytes fed to it since it was created or last reset.
 */
module Digest {
  import opened Bytes
  import PicoFileOffsets

  /**
   * The digest of everything fed, standing in for MD5: the bytes XOR-folded
   * into 16 lanes, with the length (mod 256) folded into the first lane so
   * that trailing zeros are not invisible.
   */
  function Hash(fed: seq<byte>): (d: seq<byte>)
    ensures |d| == PicoFileOffsets.HASH_LENGTH
  {
    seq(PicoFileOffsets.HASH_LENGTH, lane => Lane(fed, lane) ^ (if lane == 0 then ByteOf(|fed| % 256) else 0))
  }

  function Lane(fed: seq<byte>, lane: int): byte
  {
    if |fed| == 0 then 0
    else
      var last := if (|fed| - 1) % PicoFileOffsets.HASH_LENGTH == lane then fed[|fed| - 1] else 0;
      Lane(fed[..|fed| - 1], lane) ^ last
  }

  /** Zero bytes leave every lane of the fold as it was. */
  lemma {:induction false} LaneIgnoresZeros(fed: seq<byte>, n: nat, lane: int)
    ensures Lane(fed + Zeros(n), lane) == Lane(fed, lane)
  {
    if n > 0 {
      LaneIgnoresZeros(fed, n - 1, lane);
      assert (fed + Zeros(n))[..|fed| + n - 1] == fed + Zeros(n - 1);
    } else {
      assert fed + Zeros(n) == fed;
    }
  }

  /** Padding with a number of zeros that is not a multiple of 256 changes the digest. */
  lemma ZeroPaddingChangesHash(fed: seq<byte>, n: nat)
    requires n % 256 != 0
    ensures Hash(fed + Zeros(n)) != Hash(fed)
  {
    LaneIgnoresZeros(fed, n, 0);
    var padded := fed + Zeros(n);
    assert |padded| % 256 != |fed| % 256;
    assert ByteOf(|padded| % 256) != ByteOf(|fed| % 256);
    assert Hash(padded)[0] != Hash(fed)[0];
  }
}
