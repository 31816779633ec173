/** Bytes and big-endian integers. */
module Bytes {
  type Byte = bv8

  /** The big-endian number written in `s`. */
  function Number(s: seq<Byte>): nat {
    if s == [] then 0 else 256 * Number(s[..|s| - 1]) + s[|s| - 1] as nat
  }

  /** The low `width` bytes of n, most significant first. */
  function BigEndian(n: nat, width: nat): (s: seq<Byte>)
    ensures |s| == width
  {
    if width == 0 then [] else BigEndian(n / 256, width - 1) + [(n % 256) as Byte]
  }

  function Power256(width: nat): (p: nat)
    ensures p > 0
  {
    if width == 0 then 1 else 256 * Power256(width - 1)
  }

  lemma ByteRoundTrip(n: nat)
    requires n < 256
    ensures (n as Byte) as nat == n
  {
    // The halves of the range keep the solver's work on the conversion small.
    if n < 128 {
      if n < 64 {
      } else {
      }
    } else {
      if n < 192 {
      } else {
      }
    }
  }

  /** What fits in `width` bytes survives being written and read. */
  lemma {:induction false} NumberOfBigEndian(n: nat, width: nat)
    requires n < Power256(width)
    ensures Number(BigEndian(n, width)) == n
  {
    if width != 0 {
      NumberOfBigEndian(n / 256, width - 1);
      ByteRoundTrip(n % 256);
      var s := BigEndian(n, width);
      assert s[..width - 1] == BigEndian(n / 256, width - 1);
      assert s[width - 1] as nat == n % 256;
    }
  }

  lemma {:induction false} NumberBelow(s: seq<Byte>)
    ensures Number(s) < Power256(|s|)
  {
    if s != [] {
      NumberBelow(s[..|s| - 1]);
    }
  }

  lemma LowByte(n: nat, b: Byte)
    ensures (256 * n + b as nat) / 256 == n && ((256 * n + b as nat) % 256) as Byte == b
  {
    assert (256 * n + b as nat) % 256 == b as nat;
  }

  /** And every byte string is the big-endian form of the number written in it. */
  lemma {:induction false} BigEndianOfNumber(s: seq<Byte>)
    ensures BigEndian(Number(s), |s|) == s
  {
    if s != [] {
      LowByte(Number(s[..|s| - 1]), s[|s| - 1]);
      BigEndianOfNumber(s[..|s| - 1]);
      assert s == s[..|s| - 1] + [s[|s| - 1]];
    }
  }
}
