/** Network byte order for the integers of net/Buffer.h and BinaryReader.h. */
module NetworkOrder {
  import opened Bytes

  function Pow256(n: nat): (p: nat)
    ensures p > 0
  {
    if n == 0 then 1 else 256 * Pow256(n - 1)
  }

  /** `n` bytes, most significant first. */
  function BigEndian(n: nat, v: nat): (s: seq<byte>)
    ensures |s| == n
  {
    if n == 0 then [] else BigEndian(n - 1, v / 256) + [v % 256]
  }

  function ReadBigEndian(s: seq<byte>): nat {
    if s == [] then 0 else 256 * ReadBigEndian(s[..|s| - 1]) + s[|s| - 1]
  }

  lemma {:induction false} BigEndianRoundTrip(n: nat, v: nat)
    requires v < Pow256(n)
    ensures ReadBigEndian(BigEndian(n, v)) == v
  {
    if n > 0 {
      BigEndianRoundTrip(n - 1, v / 256);
      var s := BigEndian(n, v);
      assert s[..n - 1] == BigEndian(n - 1, v / 256);
    }
  }

  lemma {:induction false} ReadBound(s: seq<byte>)
    ensures ReadBigEndian(s) < Pow256(|s|)
  {
    if s != [] {
      ReadBound(s[..|s| - 1]);
    }
  }

  /** Two's complement on `n` bytes. */
  predicate Fits(n: nat, x: int) {
    -(Pow256(n) as int) <= 2 * x < Pow256(n)
  }

  function EncodeInt(n: nat, x: int): (s: seq<byte>)
    requires Fits(n, x)
    ensures |s| == n
  {
    BigEndian(n, if x >= 0 then x else x + Pow256(n))
  }

  function DecodeInt(s: seq<byte>): int {
    var v := ReadBigEndian(s);
    if 2 * v < Pow256(|s|) then v else v - Pow256(|s|)
  }

  /** Host to network and back, for every integer that fits. */
  lemma {:induction false} IntRoundTrip(n: nat, x: int)
    requires Fits(n, x)
    ensures DecodeInt(EncodeInt(n, x)) == x
  {
    hide BigEndian, ReadBigEndian, Pow256;
    BigEndianRoundTrip(n, if x >= 0 then x else x + Pow256(n));
  }

  /** Network order, and two's complement for negative values. */
  lemma {:induction false} NetworkOrderOf(x: int)
    requires Fits(2, x)
    ensures EncodeInt(2, x) == if x >= 0 then [x / 256, x % 256] else [(x + 65536) / 256, x % 256]
  {
    var v := if x >= 0 then x else x + 65536;
    assert Pow256(1) == 256 && Pow256(2) == 65536;
    assert BigEndian(0, v / 256 / 256) == [] && BigEndian(1, v / 256) == [] + [v / 256 % 256];
    assert BigEndian(2, v) == [v / 256 % 256] + [v % 256];
  }

  /** Every `n` bytes are some integer's. */
  lemma {:induction false} DecodedFits(s: seq<byte>)
    ensures s != [] ==> Fits(|s|, DecodeInt(s))
  {
    hide ReadBigEndian;
    ReadBound(s);
  }
}
