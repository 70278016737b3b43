/** Machine integers, result codes (include/jcu-dparm/err.h) and byte order. */
module DparmTypes {
  type uint8 = x: nat | x < 256
  type uint16 = x: nat | x < 0x1_0000
  type uint32 = x: nat | x < 0x1_0000_0000
  type uint64 = x: nat | x < 0x1_0000_0000_0000_0000

  datatype Code =
    | OK | SYS | NOT_SUPPORTED | NOT_IMPL | ILLEGAL_DATA | ILLEGAL_RESPONSE | IOCTL_FAILED | IO_TIMEOUT
    | ATA_FAILED | NVME_FAILED | OPERATION_TIMEOUT | TCG_ERROR_STATUS | TCG_AUTH_FAILED

  datatype DparmResult = DparmResult(code: Code, sysError: int, driveStatus: int) {
    predicate IsOk() { code == OK }
  }

  datatype DparmReturn<T> = DparmReturn(result: DparmResult, value: T) {
    predicate IsOk() { result.code == OK }
  }

  /** Whether b has the bit of a one-bit mask. */
  predicate Bit(b: uint8, mask: nat)
    requires mask in {1, 2, 4, 8, 16, 32, 64, 128}
  {
    b / mask % 2 == 1
  }

  function Pow256(k: nat): (p: nat)
    ensures p >= 1
  {
    if k == 0 then 1 else 256 * Pow256(k - 1)
  }

  /** The n low bytes of v, most significant first. */
  function BEBytes(v: nat, n: nat): (s: seq<uint8>)
    ensures |s| == n
  {
    if n == 0 then [] else BEBytes(v / 256, n - 1) + [v % 256]
  }

  /** v >> (8 * k). */
  function Shr8(v: nat, k: nat): nat {
    if k == 0 then v else Shr8(v / 256, k - 1)
  }

  /** The leading byte is the one shifted furthest. */
  lemma {:induction false} LeadingByte(v: nat, n: nat)
    ensures BEBytes(v, n + 1) == [Shr8(v, n) % 256] + BEBytes(v, n)
  {
    if n > 0 {
      LeadingByte(v / 256, n - 1);
    }
  }

  /** The number that big-endian bytes spell. */
  function NatOfBE(s: seq<uint8>): nat {
    if s == [] then 0 else NatOfBE(s[..|s| - 1]) * 256 + s[|s| - 1]
  }

  lemma {:induction false} BERoundTrip(v: nat, n: nat)
    requires v < Pow256(n)
    ensures NatOfBE(BEBytes(v, n)) == v
  {
    if n > 0 {
      BERoundTrip(v / 256, n - 1);
      assert BEBytes(v, n)[..n - 1] == BEBytes(v / 256, n - 1);
    }
  }

  lemma {:induction false} NatOfBEBound(s: seq<uint8>)
    ensures NatOfBE(s) < Pow256(|s|)
  {
    if s != [] {
      NatOfBEBound(s[..|s| - 1]);
    }
  }

  /** A byte in front counts with the weight of the bytes behind it. */
  lemma {:induction false} NatOfBECons(b: uint8, s: seq<uint8>)
    ensures NatOfBE([b] + s) == b * Pow256(|s|) + NatOfBE(s)
  {
    if s == [] {
      assert ([b] + s)[..0] == [];
    } else {
      var t := s[..|s| - 1];
      NatOfBECons(b, t);
      assert ([b] + s)[..|s|] == [b] + t;
      assert NatOfBE([b] + s) == NatOfBE([b] + t) * 256 + s[|s| - 1];
      assert b * Pow256(|t|) * 256 == b * Pow256(|s|);
    }
  }

  function BE32(v: uint32): (s: seq<uint8>)
    ensures |s| == 4
  {
    [v / 0x100_0000, v / 0x1_0000 % 256, v / 0x100 % 256, v % 256]
  }

  /** How a little-endian host stores a 32-bit number. */
  function LE32(v: uint32): (s: seq<uint8>)
    ensures |s| == 4
  {
    [v % 256, v / 0x100 % 256, v / 0x1_0000 % 256, v / 0x100_0000]
  }

  /** How a little-endian host reads a 32-bit number. */
  function FromLE32(s: seq<uint8>): uint32
    requires |s| == 4
  {
    var d0: nat, d1: nat, d2: nat, d3: nat := s[0], s[1], s[2], s[3];
    d0 + 0x100 * d1 + 0x1_0000 * d2 + 0x100_0000 * d3
  }

  function FromBE32(s: seq<uint8>): uint32
    requires |s| == 4
  {
    var d3: nat, d2: nat, d1: nat, d0: nat := s[0], s[1], s[2], s[3];
    d0 + 0x100 * d1 + 0x1_0000 * d2 + 0x100_0000 * d3
  }

  /** SWAP32. */
  function Swap32(v: uint32): uint32 {
    v % 256 * 0x100_0000 + v / 0x100 % 256 * 0x1_0000 + v / 0x1_0000 % 256 * 0x100 + v / 0x100_0000
  }

  lemma StoreSwapped(v: uint32)
    ensures LE32(Swap32(v)) == BE32(v)
  {
    Digits(Swap32(v), v / 0x100_0000, v / 0x1_0000 % 256, v / 0x100 % 256, v % 256);
  }

  lemma LoadSwapped(s: seq<uint8>)
    requires |s| == 4
    ensures Swap32(FromLE32(s)) == FromBE32(s)
  {
    Digits(FromLE32(s), s[0], s[1], s[2], s[3]);
  }

  lemma BE32RoundTrip(v: uint32)
    ensures FromBE32(BE32(v)) == v
  {
    QuotientsNest(v);
    QuotientDigits(v, v / 0x100, v / 0x1_0000, v / 0x100_0000);
  }

  lemma QuotientsNest(v: nat)
    ensures v / 0x1_0000 == v / 0x100 / 0x100 && v / 0x100_0000 == v / 0x1_0000 / 0x100
  {}

  lemma QuotientDigits(v: nat, q1: nat, q2: nat, q3: nat)
    requires q1 == v / 0x100 && q2 == q1 / 0x100 && q3 == q2 / 0x100
    ensures v == v % 0x100 + 0x100 * (q1 % 0x100) + 0x1_0000 * (q2 % 0x100) + 0x100_0000 * q3
  {}

  /** Base-256 digits are unique. */
  lemma Digits(v: nat, d0: uint8, d1: uint8, d2: uint8, d3: uint8)
    requires v == d0 + 0x100 * d1 + 0x1_0000 * d2 + 0x100_0000 * d3
    ensures v % 256 == d0 && v / 0x100 % 256 == d1 && v / 0x1_0000 % 256 == d2 && v / 0x100_0000 == d3
  {
    assert v / 0x100 == d1 + 0x100 * d2 + 0x1_0000 * d3;
    assert v / 0x1_0000 == d2 + 0x100 * d3;
  }
}
