/**
 * Bytes and little-endian unsigned integers, as `encoding/binary`'s
 * `LittleEndian` byte order reads them: the least significant byte first.
 */
module LittleEndian {

  /** An octet of the disk image. */
  type byte = b: int | 0 <= b < 0x100

  /** 256 to the power `n`: one more than the largest value `n` bytes can hold. */
  function Pow256(n: nat): (r: nat)
    ensures r > 0
  {
    if n == 0 then 1 else 0x100 * Pow256(n - 1)
  }

  /** The unsigned integer whose little-endian representation is `s`. */
  function FromLE(s: seq<byte>): (r: nat)
    ensures r < Pow256(|s|)
  {
    if s == [] then 0 else s[0] + 0x100 * FromLE(s[1..])
  }

  /** The `n` low-order bytes of `x`, least significant first. */
  function ToLE(x: nat, n: nat): (s: seq<byte>)
    ensures |s| == n
  {
    if n == 0 then [] else [x % 0x100] + ToLE(x / 0x100, n - 1)
  }

  /** Reading back the `n` bytes written for a value that fits in them gives the value. */
  lemma {:induction false} FromToLE(x: nat, n: nat)
    requires x < Pow256(n)
    ensures FromLE(ToLE(x, n)) == x
  {
    if n > 0 {
      assert x / 0x100 < Pow256(n - 1);
      FromToLE(x / 0x100, n - 1);
      assert ToLE(x, n)[1..] == ToLE(x / 0x100, n - 1);
    }
  }

  /** Writing back the value read from `s`, in `|s|` bytes, reproduces `s`. */
  lemma {:induction false} ToFromLE(s: seq<byte>)
    ensures ToLE(FromLE(s), |s|) == s
  {
    if s != [] {
      var rest := FromLE(s[1..]);
      assert (s[0] + 0x100 * rest) % 0x100 == s[0];
      assert (s[0] + 0x100 * rest) / 0x100 == rest;
      ToFromLE(s[1..]);
    }
  }

  /** A four-byte unsigned integer in little-endian order (Go's `uint32` as `binary.Read` decodes it). */
  function Uint32LE(b: seq<byte>): (r: nat)
    requires |b| == 4
    ensures r < 0x1_0000_0000
    ensures r == b[0] as int + 0x100 * b[1] as int + 0x1_0000 * b[2] as int + 0x100_0000 * b[3] as int
  {
    assert FromLE(b[3..]) == b[3] as int by {
      assert b[3..][1..] == [];
    }
    assert b[2..][1..] == b[3..] && b[1..][1..] == b[2..];
    assert FromLE(b[2..]) == b[2] as int + 0x100 * b[3] as int;
    assert FromLE(b[1..]) == b[1] as int + 0x100 * b[2] as int + 0x1_0000 * b[3] as int;
    FromLE(b)
  }
}
