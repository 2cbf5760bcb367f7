/**
 * Java integer ranges and the big-endian byte order that Netty's
 * writeInt/readInt and writeShort/readShort use on the wire.
 */
module Wire {

  type byte = b: int | 0 <= b < 256

  /** Java `int`. */
  type Int32 = x: int | -0x8000_0000 <= x < 0x8000_0000

  /** Java `long`. */
  type Int64 = x: int | -0x8000_0000_0000_0000 <= x < 0x8000_0000_0000_0000

  /** Integer.MAX_VALUE */
  const INT_MAX: Int32 := 0x7FFF_FFFF

  /** Long.MAX_VALUE */
  const LONG_MAX: Int64 := 0x7FFF_FFFF_FFFF_FFFF

  const TWO_32: nat := 0x1_0000_0000

  function Pow256(k: nat): (p: nat)
    ensures p >= 1
  {
    if k == 0 then 1 else 256 * Pow256(k - 1)
  }

  /** The low k bytes of u, most significant first. */
  function BigEndian(u: nat, k: nat): (bs: seq<byte>)
    ensures |bs| == k
  {
    if k == 0 then [] else BigEndian(u / 256, k - 1) + [u % 256]
  }

  /** The unsigned value of bytes read most significant first. */
  function FromBigEndian(bs: seq<byte>): (u: nat)
    ensures u < Pow256(|bs|)
  {
    if |bs| == 0 then 0 else FromBigEndian(bs[..|bs| - 1]) * 256 + bs[|bs| - 1]
  }

  lemma MulAtLeast(d: nat, m: nat)
    requires d >= 1
    ensures d * m >= m
  {
    assert d * m == (d - 1) * m + m;
  }

  /** Division by m is determined by any quotient and remainder that add up. */
  lemma ModOfSum(u: nat, m: nat, q: nat, rem: nat)
    requires m > 0 && rem < m && u == q * m + rem
    ensures u % m == rem && u / m == q
  {
    var q', r' := u / m, u % m;
    assert (q - q') * m == r' - rem;
    if q > q' {
      MulAtLeast(q - q', m);
    } else if q < q' {
      MulAtLeast(q' - q, m);
    }
  }

  lemma DivMod(q: nat, p: nat)
    requires p > 0
    ensures q / p >= 0 && q == (q / p) * p + q % p
  {
  }

  /** Splitting u by 256 and the quotient by p splits u by 256 * p. */
  lemma Regroup(u: nat, q: nat, r: nat, a: nat, b: nat, p: nat)
    requires r < 256 && b < p && u == 256 * q + r && q == a * p + b
    ensures u % (256 * p) == b * 256 + r
  {
    assert 256 * (a * p + b) == a * (256 * p) + b * 256;
    assert b * 256 <= (p - 1) * 256;
    ModOfSum(u, 256 * p, a, b * 256 + r);
  }

  /** Writing k bytes and reading them back yields u modulo 256^k. */
  lemma {:induction false} FromBigEndianOf(u: nat, k: nat)
    ensures FromBigEndian(BigEndian(u, k)) == u % Pow256(k)
  {
    if k > 0 {
      var bs := BigEndian(u, k);
      var q, r := u / 256, u % 256;
      assert bs[..k - 1] == BigEndian(q, k - 1);
      FromBigEndianOf(q, k - 1);
      var p := Pow256(k - 1);
      assert bs[k - 1] == r;
      assert FromBigEndian(bs) == (q % p) * 256 + r;
      DivMod(q, p);
      Regroup(u, q, r, q / p, q % p, p);
      assert Pow256(k) == 256 * p;
    }
  }

  /** Every byte sequence is the big-endian form of its own value. */
  lemma {:induction false} BigEndianOf(bs: seq<byte>)
    ensures BigEndian(FromBigEndian(bs), |bs|) == bs
  {
    if |bs| > 0 {
      var init := bs[..|bs| - 1];
      var u := FromBigEndian(bs);
      ModOfSum(u, 256, FromBigEndian(init), bs[|bs| - 1]);
      BigEndianOf(init);
      assert bs == init + [bs[|bs| - 1]];
    }
  }

  lemma Pow256Of4()
    ensures Pow256(4) == TWO_32
  {
  }

  /** The 32-bit two's-complement pattern of x, as an unsigned number. */
  function Unsigned32(x: Int32): (u: nat)
    ensures u < TWO_32
    ensures (u - x) % TWO_32 == 0
  {
    if x < 0 then x + TWO_32 else x
  }

  /** The `int` whose two's-complement pattern is u. */
  function Signed32(u: nat): (x: Int32)
    requires u < TWO_32
    ensures (u - x) % TWO_32 == 0
  {
    if u >= 0x8000_0000 then u - TWO_32 else u
  }

  /**
   * ByteBuf.readInt on exactly four bytes: the big-endian value taken as a
   * two's-complement int, negative exactly when the top bit is set.
   */
  function ReadInt(bs: seq<byte>): (x: Int32)
    requires |bs| == 4
    ensures (FromBigEndian(bs) - x) % TWO_32 == 0
    ensures x < 0 <==> FromBigEndian(bs) > INT_MAX
  {
    Pow256Of4();
    Signed32(FromBigEndian(bs))
  }

  /** ByteBuf.writeInt: the four big-endian bytes of x. */
  function WriteInt(x: Int32): (bs: seq<byte>)
    ensures |bs| == 4
    ensures ReadInt(bs) == x
  {
    FromBigEndianOf(Unsigned32(x), 4);
    Pow256Of4();
    BigEndian(Unsigned32(x), 4)
  }

  /** Four bytes read as an int and written back are the same four bytes. */
  lemma WriteReadInt(bs: seq<byte>)
    requires |bs| == 4
    ensures WriteInt(ReadInt(bs)) == bs
  {
    Pow256Of4();
    BigEndianOf(bs);
  }
}
