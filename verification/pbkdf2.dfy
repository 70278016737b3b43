/** The pbkdf2 routine of src/crypto/pbkdf2.cc, driving one Hmac object. */
module Pbkdf2 {
  import opened Fips180
  import opened Rfc2104
  import opened Rfc8018
  import opened Sha1Hash
  import opened HmacSha1

  /** The pseudorandom function that an Hmac object with this key block computes. */
  function HmacPrf(block: seq<byte>): Prf {
    text => HmacOf(Sha1, block, Taken(text))
  }

  /** HMAC-SHA-1 with a block-sized key. */
  function HmacOver(block: seq<byte>): Prf {
    text => HmacOf(Sha1, block, text)
  }

  /** They agree on every text whose length 32 bits can hold. */
  lemma PrfIsHmac(block: seq<byte>)
    ensures AgreeBelow(HmacPrf(block), HmacOver(block), TWO32)
  {
    hide HmacOf, Sha1;
  }

  /** So for every salt that the PRF takes whole, the key derived with the PRF is that of PBKDF2-HMAC-SHA-1. */
  lemma DerivedIsHmac(block: seq<byte>, salt: seq<byte>, c: nat, dkLen: nat)
    requires c >= 1 && |salt| + 4 < TWO32
    ensures HasLength(HmacPrf(block), DIGEST_SIZE) && HasLength(HmacOver(block), DIGEST_SIZE)
    ensures Derived(HmacPrf(block), DIGEST_SIZE, salt, c, dkLen)
         == Derived(HmacOver(block), DIGEST_SIZE, salt, c, dkLen)
  {
    HmacHasLength(block);
    hide HmacPrf, HmacOver, HasLength, AgreeBelow, Derived;
    PrfIsHmac(block);
    DerivedAgrees(HmacPrf(block), HmacOver(block), DIGEST_SIZE, TWO32, salt, c, dkLen);
  }

  /** What F accumulates in U_r after c rounds; no rounds leave it zero. */
  ghost function Accumulated(p: Prf, len: nat, salt: seq<byte>, c: nat, i: nat): (t: seq<byte>)
    requires HasLength(p, len)
    ensures |t| == len
  {
    if c == 0 then Zeros(len) else T(p, len, salt, c, i)
  }

  /** The block fed to the PRF in round c + 1. */
  ghost function Fed(p: Prf, salt: seq<byte>, i: nat, c: nat): seq<byte> {
    if c == 0 then salt + NatBE32(i) else U(p, salt, i, c)
  }

  lemma XorZeros(s: seq<byte>)
    ensures XorSeq(Zeros(|s|), s) == s
  {}

  lemma AccumulateStep(p: Prf, len: nat, salt: seq<byte>, c: nat, i: nat)
    requires HasLength(p, len)
    ensures |U(p, salt, i, c + 1)| == len
    ensures U(p, salt, i, c + 1) == p(Fed(p, salt, i, c)) == Fed(p, salt, i, c + 1)
    ensures Accumulated(p, len, salt, c + 1, i) == XorSeq(Accumulated(p, len, salt, c, i), U(p, salt, i, c + 1))
  {
    if c == 0 {
      XorZeros(U(p, salt, i, 1));
    }
  }

  /** bytes_xor. */
  method BytesXor(dest: array<byte>, src: seq<byte>, length: nat)
    requires length == dest.Length == |src|
    modifies dest
    ensures dest[..] == XorSeq(old(dest[..]), src)
  {
    var i := 0;
    while i < length
      invariant i <= length
      invariant forall k :: 0 <= k < i ==> dest[k] == old(dest[k]) ^ src[k]
      invariant forall k :: i <= k < dest.Length ==> dest[k] == old(dest[k])
    {
      dest[i] := dest[i] ^ src[i];
      i := i + 1;
    }
  }

  /** int_to_bytes: big-endian bytes of i at offset at. */
  method IntToBytes(dest: array<byte>, at: nat, i: nat)
    requires i < TWO32 && at + 4 == dest.Length
    modifies dest
    ensures dest[..] == old(dest[..at]) + NatBE32(i)
  {
    hide NatByte;
    dest[at] := NatByte(i, 0);
    dest[at + 1] := NatByte(i, 1);
    dest[at + 2] := NatByte(i, 2);
    dest[at + 3] := NatByte(i, 3);
    assert dest[at..] == NatBE32(i);
    assert dest[..] == dest[..at] + dest[at..];
  }

  /** The body of F's loop: one more PRF application, folded into U_r. */
  method Iterate(prf: Hmac, block: seq<byte>, ur: array<byte>, ghost salt: seq<byte>, ghost c: nat, ghost i: nat)
    returns (digest: seq<byte>)
    requires prf.Valid() && ur.Length == DIGEST_SIZE
    requires ur != prf.iKeyPad && ur != prf.oKeyPad && ur != prf.messageHash.buffer
    requires HasLength(HmacPrf(prf.keyBlock), DIGEST_SIZE)
    requires block == Fed(HmacPrf(prf.keyBlock), salt, i, c)
    requires ur[..] == Accumulated(HmacPrf(prf.keyBlock), DIGEST_SIZE, salt, c, i)
    modifies ur, prf.messageHash, prf.messageHash.state, prf.messageHash.buffer
    ensures prf.Valid() && |digest| == DIGEST_SIZE
    ensures digest == Fed(HmacPrf(prf.keyBlock), salt, i, c + 1)
    ensures ur[..] == Accumulated(HmacPrf(prf.keyBlock), DIGEST_SIZE, salt, c + 1, i)
  {
    hide Hmac.Valid, Hmac.Keyed, HmacOf, Accumulated, Fed, HasLength, XorSeq, Taken;
    AccumulateStep(HmacPrf(prf.keyBlock), DIGEST_SIZE, salt, c, i);
    prf.Reset();
    prf.KeyedLength([]);
    prf.Update(block);
    assert [] + Taken(block) == Taken(block);
    assert prf.Keyed(Taken(block));
    digest := prf.Digest();
    BytesXor(ur, digest, DIGEST_SIZE);
  }

  lemma HmacHasLength(block: seq<byte>)
    ensures HasLength(HmacPrf(block), DIGEST_SIZE) && HasLength(HmacOver(block), DIGEST_SIZE)
  {
    hide Sha1From;
  }

  /** F: the exclusive-or of the iterated PRF values of one block, stored at its slot of tbuf. */
  method F(tbuf: array<byte>, tiOffset: nat, prf: Hmac, salt: seq<byte>, iteration: int, blockIndex: nat,
           ur: array<byte>, ui: array<byte>)
    requires prf.Valid()
    requires ur.Length == DIGEST_SIZE && ur[..] == Zeros(DIGEST_SIZE)
    requires ui.Length == |salt| + 4 && blockIndex < TWO32
    requires tiOffset + DIGEST_SIZE <= tbuf.Length
    requires {tbuf, ur, ui} !! {prf.iKeyPad, prf.oKeyPad, prf.messageHash.buffer}
    requires tbuf != ur && tbuf != ui && ur != ui
    requires HasLength(HmacPrf(prf.keyBlock), DIGEST_SIZE)
    modifies tbuf, ur, ui, prf.messageHash, prf.messageHash.state, prf.messageHash.buffer
    ensures prf.Valid()
    ensures tbuf[..] == old(tbuf[..tiOffset])
                      + Accumulated(HmacPrf(prf.keyBlock), DIGEST_SIZE, salt, Rounds(iteration), blockIndex)
                      + old(tbuf[tiOffset + DIGEST_SIZE..])
  {
    hide Hmac.Valid, HmacOf, HmacPrf, HasLength, T, U, NatBE32, Zeros;
    ghost var p := HmacPrf(prf.keyBlock);
    Memcpy(ui, 0, salt);
    IntToBytes(ui, |salt|, blockIndex);
    var block := ui[..];
    assert block == Fed(p, salt, blockIndex, 0);
    var i := 0;
    while i < iteration
      invariant 0 <= i <= Rounds(iteration)
      invariant prf.Valid()
      invariant block == Fed(p, salt, blockIndex, i)
      invariant ur[..] == Accumulated(p, DIGEST_SIZE, salt, i, blockIndex)
      modifies ur, prf.messageHash, prf.messageHash.state, prf.messageHash.buffer
    {
      block := Iterate(prf, block, ur, salt, i, blockIndex);
      i := i + 1;
    }
    Memcpy(tbuf, tiOffset, ur[..]);
  }

  /** The number of times a loop up to a signed bound runs. */
  function Rounds(iteration: int): nat {
    if iteration < 0 then 0 else iteration
  }

  /** The slots of tbuf after n calls of F. */
  ghost function Slots(p: Prf, len: nat, salt: seq<byte>, c: nat, n: nat): (b: seq<byte>)
    requires HasLength(p, len)
    ensures |b| == n * len
  {
    if n == 0 then [] else Slots(p, len, salt, c, n - 1) + Accumulated(p, len, salt, c, n)
  }

  lemma {:induction false} SlotsAre(p: Prf, len: nat, salt: seq<byte>, c: nat, n: nat)
    requires HasLength(p, len)
    ensures c >= 1 ==> Slots(p, len, salt, c, n) == Blocks(p, len, salt, c, n)
    ensures c == 0 ==> Slots(p, len, salt, c, n) == Zeros(n * len)
  {
    if n > 0 {
      SlotsAre(p, len, salt, c, n - 1);
    }
  }

  /** Truncating the slots of at least keyLength blocks gives the derived key. */
  lemma SlotsGiveKey(p: Prf, len: nat, salt: seq<byte>, c: nat, keyLength: nat, n: nat)
    requires HasLength(p, len) && n >= keyLength
    ensures keyLength <= |Slots(p, len, salt, c, n)|
    ensures c >= 1 ==> Slots(p, len, salt, c, n)[..keyLength] == Derived(p, len, salt, c, keyLength)
    ensures c == 0 ==> Slots(p, len, salt, c, n)[..keyLength] == Zeros(keyLength)
  {
    SlotsAre(p, len, salt, c, n);
    MulMonotone(keyLength, n, len);
    if c >= 1 {
      MoreBlocksSameKey(p, len, salt, c, keyLength, n);
    }
  }

  /**
   * The body of pbkdf2: computes max(keyLength, 20) blocks and truncates. The size bound is the signed 32-bit range
   * of the buffer size the routine multiplies out.
   */
  method DeriveKey(iteration: int, keyLength: int, salt: seq<byte>, password: seq<byte>) returns (dk: seq<byte>)
    requires |password| < 0x8000_0000
    requires 0 <= keyLength && keyLength * DIGEST_SIZE < 0x8000_0000
    ensures HasLength(HmacPrf(KeyBlock(password)), DIGEST_SIZE)
    ensures iteration >= 1 ==> dk == Derived(HmacPrf(KeyBlock(password)), DIGEST_SIZE, salt, iteration, keyLength)
    ensures iteration <= 0 ==> dk == Zeros(keyLength)
  {
    hide Hmac.Valid, HmacOf, HmacPrf, HasLength, KeyBlock, Accumulated;
    HmacHasLength(KeyBlock(password));
    var prf := new Hmac(password);
    var l := if keyLength > DIGEST_SIZE then keyLength else DIGEST_SIZE;
    var tbuf := new byte[l * DIGEST_SIZE](_ => 0);
    var tiOffset := 0;
    var ur := new byte[DIGEST_SIZE](_ => 0);
    var ui := new byte[|salt| + 4](_ => 0);
    ghost var p := HmacPrf(prf.keyBlock);
    var i := 1;
    while i <= l
      invariant 1 <= i <= l + 1 && tiOffset == (i - 1) * DIGEST_SIZE
      invariant prf.Valid() && fresh(prf.messageHash) && fresh(prf.messageHash.state) && fresh(prf.messageHash.buffer)
      invariant tbuf[..tiOffset] == Slots(p, DIGEST_SIZE, salt, Rounds(iteration), i - 1)
    {
      Memcpy(ur, 0, Zeros(DIGEST_SIZE));
      F(tbuf, tiOffset, prf, salt, iteration, i, ur, ui);
      tiOffset := tiOffset + DIGEST_SIZE;
      i := i + 1;
    }
    SlotsGiveKey(p, DIGEST_SIZE, salt, Rounds(iteration), keyLength, l);
    assert tbuf[..tiOffset][..keyLength] == tbuf[..keyLength];
    dk := tbuf[..keyLength];
  }

  lemma Sha1HasDigest()
    ensures HasDigest(Sha1, DIGEST_SIZE)
  {
    hide Sha1From;
  }

  /** pbkdf2. */
  method Pbkdf2(iteration: int, keyLength: int, salt: seq<byte>, password: seq<byte>) returns (dk: seq<byte>)
    requires |password| < 0x8000_0000
    requires 0 <= keyLength && keyLength * DIGEST_SIZE < 0x8000_0000
    ensures HasLength(HmacPrf(KeyBlock(password)), DIGEST_SIZE)
    ensures iteration >= 1 ==> dk == Derived(HmacPrf(KeyBlock(password)), DIGEST_SIZE, salt, iteration, keyLength)
    ensures iteration <= 0 ==> dk == Zeros(keyLength)
    // PBKDF2-HMAC-SHA-1 as the two standards define it, below the lengths that are cut off and stretched.
    ensures HasDigest(Sha1, DIGEST_SIZE) && forall block :: HasLength(HmacOver(block), DIGEST_SIZE)
    ensures iteration >= 1 && |salt| + 4 < TWO32 ==>
      dk == Derived(HmacOver(KeyBlock(password)), DIGEST_SIZE, salt, iteration, keyLength)
    ensures iteration >= 1 && |salt| + 4 < TWO32 && |password| <= BLOCK_SIZE ==>
      dk == Derived(HmacOver(RfcKey(Sha1, DIGEST_SIZE, BLOCK_SIZE, password)), DIGEST_SIZE, salt, iteration, keyLength)
  {
    hide HmacPrf, HmacOver, HasLength, HasDigest, Derived;
    Sha1HasDigest();
    forall block
      ensures HasLength(HmacOver(block), DIGEST_SIZE)
    {
      HmacHasLength(block);
    }
    dk := DeriveKey(iteration, keyLength, salt, password);
    if iteration >= 1 && |salt| + 4 < TWO32 {
      DerivedIsHmac(KeyBlock(password), salt, iteration, keyLength);
    }
  }
}
