/** The Hmac object of src/crypto/hash.cc, over the SHA-1 hash objects that its only factory creates. */
module HmacSha1 {
  import opened Fips180
  import opened Rfc2104
  import opened Sha1Hash

  const BLOCK_SIZE: nat := 64
  const DIGEST_SIZE: nat := 20

  /** The key block for a key, as the constructor derives it. */
  ghost function KeyBlock(key: seq<byte>): (b: seq<byte>)
    ensures |b| == BLOCK_SIZE
  {
    CodeKey(Sha1, DIGEST_SIZE, BLOCK_SIZE, key)
  }

  /** bytes_xor_all. */
  method BytesXorAll(dest: array<byte>, value: byte)
    modifies dest
    ensures dest[..] == XorAll(old(dest[..]), value)
  {
    var i := 0;
    while i < dest.Length
      invariant i <= dest.Length
      invariant forall k :: 0 <= k < i ==> dest[k] == old(dest[k]) ^ value
      invariant forall k :: i <= k < dest.Length ==> dest[k] == old(dest[k])
    {
      dest[i] := dest[i] ^ value;
      i := i + 1;
    }
  }

  /** createHash()->hash(data): one-shot hashing with a new object. */
  method HashOnce(data: seq<byte>) returns (d: seq<byte>)
    ensures d == Sha1(Taken(data))
  {
    hide Sha1From;
    var h := new HashSha1();
    d := h.Hash(data);
    assert [] + Taken(data) == Taken(data);
  }

  /** The branch of the constructor that derives the key block. */
  method DeriveKeyBlock(key: seq<byte>) returns (blockKey: seq<byte>)
    requires |key| < 0x8000_0000
    ensures blockKey == KeyBlock(key)
  {
    hide Sha1;
    if |key| > BLOCK_SIZE {
      var h := HashOnce(key);
      while |h| < BLOCK_SIZE
        invariant |h| < BLOCK_SIZE + DIGEST_SIZE
        invariant Stretch(Sha1, DIGEST_SIZE, h, key, BLOCK_SIZE)
               == Stretch(Sha1, DIGEST_SIZE, Sha1(key), key, BLOCK_SIZE)
        decreases BLOCK_SIZE - |h|
      {
        var a := h + key;
        var b := HashOnce(a);
        h := h + b;
      }
      blockKey := h[..BLOCK_SIZE];
    } else {
      blockKey := key + Zeros(BLOCK_SIZE - |key|);
    }
  }

  class Hmac {
    const iKeyPad: array<byte>
    const oKeyPad: array<byte>
    const messageHash: HashSha1
    ghost const keyBlock: seq<byte>

    ghost predicate Valid()
      reads this, iKeyPad, oKeyPad, messageHash, messageHash.state, messageHash.buffer
    {
      && messageHash.Valid() && |keyBlock| == BLOCK_SIZE
      && iKeyPad != messageHash.buffer && oKeyPad != messageHash.buffer
      && iKeyPad[..] == XorAll(keyBlock, 0x36)
      && oKeyPad[..] == XorAll(keyBlock, 0x5c)
    }

    /** Since the last reset, exactly text has been absorbed and no digest taken. */
    ghost predicate Keyed(text: seq<byte>)
      reads messageHash
    {
      messageHash.iv == INITIAL_HASH && messageHash.absorbed == XorAll(keyBlock, 0x36) + text
    }

    /** The inner pad comes before the text, so the text starts at a block boundary. */
    lemma KeyedLength(text: seq<byte>)
      requires Valid() && Keyed(text)
      ensures |messageHash.absorbed| == BLOCK_SIZE + |text|
    {
      hide HashSha1.Valid;
    }

    constructor (key: seq<byte>)
      requires |key| < 0x8000_0000
      ensures Valid() && Keyed([]) && keyBlock == KeyBlock(key)
      ensures fresh(this) && fresh(messageHash) && fresh(messageHash.state) && fresh(messageHash.buffer)
    {
      hide HashSha1.Valid, XorAll, Sha1From;
      var blockKey := DeriveKeyBlock(key);
      oKeyPad := new byte[BLOCK_SIZE](k requires 0 <= k < |blockKey| => blockKey[k]);
      iKeyPad := new byte[BLOCK_SIZE](k requires 0 <= k < |blockKey| => blockKey[k]);
      keyBlock := blockKey;
      messageHash := new HashSha1();
      new;
      assert oKeyPad[..] == blockKey && iKeyPad[..] == blockKey;
      BytesXorAll(oKeyPad, 0x5c);
      BytesXorAll(iKeyPad, 0x36);
      Reset();
    }

    method Reset()
      requires Valid()
      modifies messageHash, messageHash.state, messageHash.buffer
      ensures Valid() && Keyed([])
    {
      hide HashSha1.Valid, XorAll;
      messageHash.Reset();
      messageHash.Update(iKeyPad[..]);
      assert messageHash.absorbed == XorAll(keyBlock, 0x36) + [];
    }

    method Update(data: seq<byte>)
      requires Valid() && IndexFits(|messageHash.absorbed|, |Taken(data)|)
      modifies messageHash, messageHash.state, messageHash.buffer
      ensures Valid()
      ensures forall text :: old(Keyed(text)) ==> Keyed(text + Taken(data))
    {
      hide HashSha1.Valid, XorAll;
      messageHash.Update(data);
    }

    method Digest() returns (d: seq<byte>)
      requires Valid()
      modifies messageHash, messageHash.state, messageHash.buffer
      ensures Valid()
      ensures forall text :: old(Keyed(text)) ==> d == HmacOf(Sha1, keyBlock, text)
    {
      hide HashSha1.Valid, XorAll, Sha1From;
      var a := messageHash.Digest();
      d := HashOnce(oKeyPad[..] + a);
    }
  }
}
