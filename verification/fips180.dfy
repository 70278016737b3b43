/** SHA-1 as FIPS 180-4 defines it: section 5.1.1 (padding), 5.3.1 (initial value) and 6.1.2 (compression). */
module Fips180 {
  type byte = bv8
  type word = bv32

  /** The five working variables, and equally the five words of a hash value. */
  datatype Regs = Regs(a: word, b: word, c: word, d: word, e: word)

  const INITIAL_HASH := Regs(0x67452301, 0xEFCDAB89, 0x98BADCFE, 0x10325476, 0xC3D2E1F0)

  function Rol(x: word, n: nat): word
    requires n <= 32
  {
    (x << n) | (x >> (32 - n))
  }

  /** Rol by the amounts in use is the rotation of a 32-bit word. */
  lemma RolRotates(x: word)
    ensures Rol(x, 1) == x.RotateLeft(1) && Rol(x, 5) == x.RotateLeft(5) && Rol(x, 8) == x.RotateLeft(8)
    ensures Rol(x, 24) == x.RotateLeft(24) && Rol(x, 30) == x.RotateLeft(30)
  {}

  /** Addition modulo 2^32. */
  function Add(x: word, y: word): word { x + y }

  function Ch(x: word, y: word, z: word): word { (x & y) ^ (!x & z) }

  function Parity(x: word, y: word, z: word): word { x ^ y ^ z }

  function Maj(x: word, y: word, z: word): word { (x & y) ^ (x & z) ^ (y & z) }

  /** Section 4.1.1. */
  function F(t: nat, x: word, y: word, z: word): word {
    if t < 20 then Ch(x, y, z)
    else if t < 40 then Parity(x, y, z)
    else if t < 60 then Maj(x, y, z)
    else Parity(x, y, z)
  }

  /** Section 4.2.1. */
  function K(t: nat): word {
    if t < 20 then 0x5A827999
    else if t < 40 then 0x6ED9EBA1
    else if t < 60 then 0x8F1BBCDC
    else 0xCA62C1D6
  }

  /** One shifting round of section 6.1.2, step 3. */
  function Step(t: nat, r: Regs, w: word): Regs {
    Regs(Add(Add(Add(Add(Rol(r.a, 5), F(t, r.b, r.c, r.d)), r.e), K(t)), w), r.a, Rol(r.b, 30), r.c, r.d)
  }

  /** Rounds 0 to |ws| - 1, fed with the message schedule ws. */
  function Rounds(ws: seq<word>, h: Regs): Regs {
    if ws == [] then h
    else Step(|ws| - 1, Rounds(ws[..|ws| - 1], h), ws[|ws| - 1])
  }

  /** The big-endian word t of a block. */
  function LoadBE(m: seq<byte>, t: nat): word
    requires 4 * t + 4 <= |m|
  {
    (m[4 * t] as word << 24) | (m[4 * t + 1] as word << 16) | (m[4 * t + 2] as word << 8) | (m[4 * t + 3] as word)
  }

  function NextWord(ws: seq<word>): word
    requires 16 <= |ws|
  {
    var n := |ws|;
    Rol(ws[n - 3] ^ ws[n - 8] ^ ws[n - 14] ^ ws[n - 16], 1)
  }

  /** W[t] is the word that section 6.1.2, step 1 derives from its predecessors. */
  predicate Expanded(ws: seq<word>, t: nat)
    requires 16 <= t < |ws|
  {
    ws[t] == NextWord(ws[..t])
  }

  function Extend(ws: seq<word>): (r: seq<word>)
    requires 16 <= |ws| <= 80
    ensures |r| == 80 && ws <= r
    ensures forall t :: |ws| <= t < 80 ==> Expanded(r, t)
    decreases 80 - |ws|
  {
    if |ws| == 80 then ws
    else
      var r := Extend(ws + [NextWord(ws)]);
      assert r[..|ws|] == ws;
      r
  }

  /** The 80-word message schedule. */
  function Schedule(m: seq<byte>): (ws: seq<word>)
    requires |m| == 64
    ensures |ws| == 80
    ensures forall t :: 0 <= t < 16 ==> ws[t] == LoadBE(m, t)
    ensures forall t :: 16 <= t < 80 ==> Expanded(ws, t)
  {
    Extend(seq(16, t requires 0 <= t < 16 => LoadBE(m, t)))
  }

  function AddRegs(h: Regs, r: Regs): Regs {
    Regs(Add(h.a, r.a), Add(h.b, r.b), Add(h.c, r.c), Add(h.d, r.d), Add(h.e, r.e))
  }

  function Compress(h: Regs, m: seq<byte>): Regs
    requires |m| == 64
  {
    AddRegs(h, Rounds(Schedule(m), h))
  }

  /** The hash value that the whole blocks of m lead to from iv. */
  function HashBlocks(iv: Regs, m: seq<byte>): Regs
    requires |m| % 64 == 0
  {
    if m == [] then iv
    else Compress(HashBlocks(iv, m[..|m| - 64]), m[|m| - 64..])
  }

  /** Byte k of a word, most significant first. */
  function WordByte(w: word, k: nat): byte
    requires k < 4
  {
    var shifted := if k == 0 then w >> 24 else if k == 1 then w >> 16 else if k == 2 then w >> 8 else w;
    (shifted & 255) as byte
  }

  function StoreBE(w: word): (s: seq<byte>)
    ensures |s| == 4
  {
    [WordByte(w, 0), WordByte(w, 1), WordByte(w, 2), WordByte(w, 3)]
  }

  function RegsBytes(h: Regs): (s: seq<byte>)
    ensures |s| == 20
  {
    StoreBE(h.a) + StoreBE(h.b) + StoreBE(h.c) + StoreBE(h.d) + StoreBE(h.e)
  }

  /** A stored word reads back big-endian. */
  lemma StoredWord(w: word)
    ensures LoadBE(StoreBE(w), 0) == w
  {
    hide WordByte;
    FirstByte(w);
    SecondByte(w);
    ThirdByte(w);
    FourthByte(w);
    Reassembled(w);
  }

  lemma FirstByte(w: word)
    ensures WordByte(w, 0) == ((w >> 24) & 255) as byte
  {}

  lemma SecondByte(w: word)
    ensures WordByte(w, 1) == ((w >> 16) & 255) as byte
  {}

  lemma ThirdByte(w: word)
    ensures WordByte(w, 2) == ((w >> 8) & 255) as byte
  {}

  lemma FourthByte(w: word)
    ensures WordByte(w, 3) == (w & 255) as byte
  {}

  lemma Reassembled(w: word)
    ensures (((w >> 24) & 255) as byte as word << 24) | (((w >> 16) & 255) as byte as word << 16)
            | (((w >> 8) & 255) as byte as word << 8) | ((w & 255) as byte as word) == w
  {}

  predicate PadsTo56(n: nat, k: nat) { (n + 1 + k) % 64 == 56 }

  /** The number of zero bytes of padding: the least k with n + 1 + k = 56 modulo 64. */
  function ZeroCount(n: nat): (k: nat)
    ensures PadsTo56(n, k)
    ensures forall k': nat :: k' < k ==> !PadsTo56(n, k')
  {
    (55 - n) % 64
  }

  function Zeros(k: nat): (s: seq<byte>)
    ensures |s| == k && forall i :: 0 <= i < k ==> s[i] == 0
  {
    seq(k, _ => 0)
  }

  const TWO32: nat := 0x1_0000_0000
  const TWO64: nat := 0x1_0000_0000_0000_0000

  /** Byte k of a 32-bit number, most significant first. */
  function NatByte(v: nat, k: nat): byte
    requires k < 4
  {
    var weight := if k == 0 then 0x100_0000 else if k == 1 then 0x1_0000 else if k == 2 then 0x100 else 1;
    (v / weight % 256) as byte
  }

  function NatBE32(v: nat): (s: seq<byte>)
    ensures |s| == 4
  {
    [NatByte(v, 0), NatByte(v, 1), NatByte(v, 2), NatByte(v, 3)]
  }

  /** The 64-bit length block. Section 5.1.1 asks for messages below 2^64 bits; longer ones wrap. */
  function LengthBlock(n: nat): (s: seq<byte>)
    ensures |s| == 8
  {
    var bits := 8 * n % TWO64;
    NatBE32(bits / TWO32) + NatBE32(bits % TWO32)
  }

  lemma PadFillsBlocks(n: nat)
    requires n % 64 == 56
    ensures (n + 8) % 64 == 0
  {}

  /** Section 5.1.1. */
  function Pad(m: seq<byte>): (p: seq<byte>)
    ensures |p| % 64 == 0
  {
    PadFillsBlocks(|m| + 1 + ZeroCount(|m|));
    m + [0x80] + Zeros(ZeroCount(|m|)) + LengthBlock(|m|)
  }

  /** The hash of m from an arbitrary initial value. */
  function Sha1From(iv: Regs, m: seq<byte>): (d: seq<byte>)
    ensures |d| == 20
  {
    RegsBytes(HashBlocks(iv, Pad(m)))
  }

  /** Section 6.1. */
  function Sha1(m: seq<byte>): (d: seq<byte>)
    ensures |d| == 20
  {
    Sha1From(INITIAL_HASH, m)
  }

  /** The digest, read as five big-endian words, is the hash value of the padded message. */
  lemma DigestWords(iv: Regs, m: seq<byte>)
    ensures var d, h := Sha1From(iv, m), HashBlocks(iv, Pad(m));
            && LoadBE(d, 0) == h.a && LoadBE(d, 1) == h.b && LoadBE(d, 2) == h.c
            && LoadBE(d, 3) == h.d && LoadBE(d, 4) == h.e
  {
    hide HashBlocks, Pad, LoadBE, RegsBytes;
    RegsSpelled(HashBlocks(iv, Pad(m)));
  }

  lemma RegsSpelled(h: Regs)
    ensures var d := RegsBytes(h);
            && LoadBE(d, 0) == h.a && LoadBE(d, 1) == h.b && LoadBE(d, 2) == h.c
            && LoadBE(d, 3) == h.d && LoadBE(d, 4) == h.e
  {
    hide StoreBE, LoadBE, RegsBytes;
    var d := RegsBytes(h);
    WordsOfRegs(h);
    WordIn(d, 0, h.a);
    WordIn(d, 1, h.b);
    WordIn(d, 2, h.c);
    WordIn(d, 3, h.d);
    WordIn(d, 4, h.e);
  }

  lemma WordsOfRegs(h: Regs)
    ensures var d := RegsBytes(h);
            && d[0..4] == StoreBE(h.a) && d[4..8] == StoreBE(h.b) && d[8..12] == StoreBE(h.c)
            && d[12..16] == StoreBE(h.d) && d[16..20] == StoreBE(h.e)
  {
    hide StoreBE;
    var d := RegsBytes(h);
    assert d == StoreBE(h.a) + (StoreBE(h.b) + (StoreBE(h.c) + (StoreBE(h.d) + StoreBE(h.e))));
    assert d[16..20] == StoreBE(h.e);
  }

  lemma WordIn(d: seq<byte>, t: nat, w: word)
    requires 4 * t + 4 <= |d| && d[4 * t..4 * t + 4] == StoreBE(w)
    ensures LoadBE(d, t) == w
  {
    StoredWord(w);
    hide StoreBE;
    var s := d[4 * t..4 * t + 4];
    assert d[4 * t] == s[0] && d[4 * t + 1] == s[1] && d[4 * t + 2] == s[2] && d[4 * t + 3] == s[3];
  }

  lemma HashBlocksAppend(iv: Regs, m: seq<byte>, b: seq<byte>)
    requires |m| % 64 == 0 && |b| == 64
    ensures HashBlocks(iv, m + b) == Compress(HashBlocks(iv, m), b)
  {
    hide Compress;
    assert (m + b)[..|m + b| - 64] == m;
    assert (m + b)[|m + b| - 64..] == b;
  }
}
