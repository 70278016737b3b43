/** What callers of the hash and MAC objects get, however they split the input. */
module CryptoClients {
  import opened DparmTypes
  import opened Fips180
  import opened Rfc2104
  import opened Sha1Hash
  import opened HmacSha1

  function Concat(chunks: seq<seq<byte>>): seq<byte> {
    if chunks == [] then [] else Concat(chunks[..|chunks| - 1]) + chunks[|chunks| - 1]
  }

  /** What updates with these chunks pass on. */
  function AllTaken(chunks: seq<seq<byte>>): seq<byte> {
    if chunks == [] then [] else AllTaken(chunks[..|chunks| - 1]) + Taken(chunks[|chunks| - 1])
  }

  /** Behind n bytes, no update with these chunks in turn wraps its index arithmetic. */
  predicate Fits(n: nat, chunks: seq<seq<byte>>) {
    forall k :: 0 <= k < |chunks| ==> IndexFits(n + |AllTaken(chunks[..k])|, |Taken(chunks[k])|)
  }

  /** Nothing is cut off exactly when every chunk is shorter than 2^32 bytes. */
  lemma {:induction false} AllTakenIsConcatIff(chunks: seq<seq<byte>>)
    ensures |AllTaken(chunks)| <= |Concat(chunks)|
    ensures AllTaken(chunks) == Concat(chunks) <==> forall k :: 0 <= k < |chunks| ==> |chunks[k]| < TWO32
  {
    if chunks != [] {
      var front, last := chunks[..|chunks| - 1], chunks[|chunks| - 1];
      AllTakenIsConcatIff(front);
      assert |Taken(last)| <= |last|;
      if AllTaken(chunks) == Concat(chunks) {
        assert |AllTaken(front)| == |Concat(front)|;
        assert AllTaken(front) == AllTaken(chunks)[..|Concat(front)|] == Concat(front);
        assert |Taken(last)| == |last|;
        assert forall k :: 0 <= k < |front| ==> front[k] == chunks[k];
      }
    }
  }

  lemma TakeNone(chunks: seq<seq<byte>>)
    ensures AllTaken(chunks[..0]) == []
  {}

  lemma TakeOne(chunks: seq<seq<byte>>, i: nat)
    requires i < |chunks|
    ensures AllTaken(chunks[..i + 1]) == AllTaken(chunks[..i]) + Taken(chunks[i])
  {
    hide Taken;
    assert chunks[..i + 1][..i] == chunks[..i];
  }

  lemma FitsEach(n: nat, chunks: seq<seq<byte>>)
    requires Fits(n, chunks)
    ensures forall k :: 0 <= k < |chunks| ==> IndexFits(n + |AllTaken(chunks[..k])|, |Taken(chunks[k])|)
  {}

  method FeedHash(h: HashSha1, chunks: seq<seq<byte>>)
    requires h.Valid() && Fits(|h.absorbed|, chunks)
    modifies h, h.state, h.buffer
    ensures h.Valid() && h.iv == old(h.iv) && h.absorbed == old(h.absorbed) + AllTaken(chunks)
  {
    hide HashSha1.Valid, IndexFits, Taken, Fits, AllTaken;
    FitsEach(|h.absorbed|, chunks);
    TakeNone(chunks);
    var i := 0;
    while i < |chunks|
      invariant i <= |chunks| && h.Valid() && h.iv == old(h.iv)
      invariant h.absorbed == old(h.absorbed) + AllTaken(chunks[..i])
    {
      h.Update(chunks[i]);
      TakeOne(chunks, i);
      i := i + 1;
    }
    assert chunks[..i] == chunks;
  }

  /**
   * After a reset, the digest is the SHA-1 of the concatenated chunks, whatever the object did before. FIPS 180-4
   * defines it below 2^61 bytes; beyond, the length block wraps.
   */
  method Sha1OfChunks(earlier: seq<seq<byte>>, chunks: seq<seq<byte>>) returns (d: seq<byte>)
    requires Fits(0, earlier) && Fits(0, chunks)
    ensures d == Sha1(AllTaken(chunks))
    ensures (forall k :: 0 <= k < |chunks| ==> |chunks[k]| < TWO32) ==> d == Sha1(Concat(chunks))
  {
    hide HashSha1.Valid, Sha1From, Fits, IndexFits;
    var h := new HashSha1();
    FeedHash(h, earlier);
    d := h.Digest();
    h.Reset();
    FeedHash(h, chunks);
    assert [] + AllTaken(chunks) == AllTaken(chunks);
    AllTakenIsConcatIff(chunks);
    d := h.Digest();
  }

  method FeedMac(m: Hmac, chunks: seq<seq<byte>>)
    requires m.Valid() && m.Keyed([]) && Fits(BLOCK_SIZE, chunks)
    modifies m.messageHash, m.messageHash.state, m.messageHash.buffer
    ensures m.Valid() && m.Keyed(AllTaken(chunks))
  {
    hide Hmac.Valid, Hmac.Keyed, IndexFits, Taken, Fits, AllTaken;
    FitsEach(BLOCK_SIZE, chunks);
    TakeNone(chunks);
    var i := 0;
    while i < |chunks|
      invariant i <= |chunks| && m.Valid() && m.Keyed(AllTaken(chunks[..i]))
    {
      m.KeyedLength(AllTaken(chunks[..i]));
      m.Update(chunks[i]);
      TakeOne(chunks, i);
      i := i + 1;
    }
    assert chunks[..i] == chunks;
  }

  /**
   * One Hmac object, used, reset and used again: the second digest is the MAC of the second text alone, and for
   * keys up to a block it is the HMAC of RFC 2104.
   */
  method HmacOfChunks(key: seq<byte>, earlier: seq<seq<byte>>, chunks: seq<seq<byte>>) returns (d: seq<byte>)
    requires |key| < 0x8000_0000 && Fits(BLOCK_SIZE, earlier) && Fits(BLOCK_SIZE, chunks)
    ensures HasDigest(Sha1, DIGEST_SIZE)
    ensures d == HmacOf(Sha1, KeyBlock(key), AllTaken(chunks))
    ensures |key| <= BLOCK_SIZE ==> d == HmacOf(Sha1, RfcKey(Sha1, DIGEST_SIZE, BLOCK_SIZE, key), AllTaken(chunks))
  {
    hide Hmac.Valid, Hmac.Keyed, HmacOf, Sha1From, Fits;
    var m := new Hmac(key);
    FeedMac(m, earlier);
    d := m.Digest();
    m.Reset();
    FeedMac(m, chunks);
    d := m.Digest();
  }

  /** Numbers below 256 as machine bytes. */
  function AsBytes(ds: seq<uint8>): (s: seq<byte>)
    ensures |s| == |ds|
  {
    seq(|ds|, k requires 0 <= k < |ds| => ds[k] as byte)
  }

  /** Below 2^61 bytes the length block spells the bit length, as section 5.1.1 of FIPS 180-4 asks. */
  lemma LengthBlockSpellsBits(n: nat) returns (ds: seq<uint8>)
    requires n < 0x2000_0000_0000_0000
    ensures |ds| == 8 && LengthBlock(n) == AsBytes(ds) && NatOfBE(ds) == 8 * n
  {
    hide NatBE32, NatOfBE, BE32, AsBytes, LengthBlock;
    var high, low := 8 * n / TWO32, 8 * n % TWO32;
    ds := BE32(high) + BE32(low);
    FourBytes(high);
    FourBytes(low);
    LengthInWords(n);
    BytesAppend(BE32(high), BE32(low));
    AppendFour([], high);
    AppendFour(BE32(high), low);
    assert [] + BE32(high) == BE32(high);
    NoDigits();
  }

  lemma LengthInWords(n: nat)
    requires n < 0x2000_0000_0000_0000
    ensures LengthBlock(n) == NatBE32(8 * n / TWO32) + NatBE32(8 * n % TWO32)
  {
    hide NatBE32;
    assert 8 * n % TWO64 == 8 * n;
  }

  lemma BytesAppend(a: seq<uint8>, b: seq<uint8>)
    ensures AsBytes(a + b) == AsBytes(a) + AsBytes(b)
  {}

  lemma NoDigits()
    ensures NatOfBE([]) == 0
  {}

  lemma FourBytes(v: nat)
    requires v < TWO32
    ensures AsBytes(BE32(v)) == NatBE32(v)
  {
    hide NatByte, AsBytes;
    NatBytes(v, v / 0x100_0000, v / 0x1_0000, v / 0x100);
    FourAsBytes(v / 0x100_0000, v / 0x1_0000 % 256, v / 0x100 % 256, v % 256);
  }

  lemma FourAsBytes(d3: uint8, d2: uint8, d1: uint8, d0: uint8)
    ensures AsBytes([d3, d2, d1, d0]) == [d3 as byte, d2 as byte, d1 as byte, d0 as byte]
  {}

  /** The bytes of a number by its quotients. */
  lemma NatBytes(v: nat, q3: nat, q2: nat, q1: nat)
    requires v < TWO32 && q3 == v / 0x100_0000 && q2 == v / 0x1_0000 && q1 == v / 0x100
    ensures q3 < 256
    ensures NatByte(v, 0) == q3 as byte && NatByte(v, 1) == (q2 % 256) as byte
    ensures NatByte(v, 2) == (q1 % 256) as byte && NatByte(v, 3) == (v % 256) as byte
  {
    assert q3 % 256 == q3;
  }

  lemma OneDigit(ds: seq<uint8>, d: uint8)
    ensures NatOfBE(ds + [d]) == NatOfBE(ds) * 256 + d
  {
    assert (ds + [d])[..|ds|] == ds;
  }

  /** Four bytes in the back shift the number by 32 bits. */
  lemma AppendFour(ds: seq<uint8>, v: nat)
    requires v < TWO32
    ensures NatOfBE(ds + BE32(v)) == NatOfBE(ds) * TWO32 + v
  {
    hide NatOfBE;
    var d0, d1, d2, d3 := v / 0x100_0000, v / 0x1_0000 % 256, v / 0x100 % 256, v % 256;
    OneDigit(ds, d0);
    OneDigit(ds + [d0], d1);
    OneDigit(ds + [d0] + [d1], d2);
    OneDigit(ds + [d0] + [d1] + [d2], d3);
    assert ds + BE32(v) == ds + [d0] + [d1] + [d2] + [d3];
    QuotientsNest(v);
  }
}
