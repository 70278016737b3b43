/** HMAC as section 2 of RFC 2104 defines it, over any hash, beside the key block this program derives. */
module Rfc2104 {
  import opened Fips180

  type HashFn = seq<byte> -> seq<byte>

  /** h maps every input to len bytes. */
  ghost predicate HasDigest(h: HashFn, len: nat) {
    len >= 1 && forall x :: |h(x)| == len
  }

  function XorAll(s: seq<byte>, v: byte): (r: seq<byte>)
    ensures |r| == |s| && forall k :: 0 <= k < |s| ==> r[k] == s[k] ^ v
  {
    seq(|s|, k requires 0 <= k < |s| => s[k] ^ v)
  }

  function ZeroPad(key: seq<byte>, size: nat): (b: seq<byte>)
    requires |key| <= size
    ensures |b| == size
  {
    key + Zeros(size - |key|)
  }

  /** H(K xor opad, H(K xor ipad, text)) for a block-sized K. */
  function HmacOf(h: HashFn, block: seq<byte>, text: seq<byte>): seq<byte> {
    h(XorAll(block, 0x5c) + h(XorAll(block, 0x36) + text))
  }

  /** K of RFC 2104: keys longer than a block are hashed first, then zero-padded. */
  ghost function RfcKey(h: HashFn, len: nat, size: nat, key: seq<byte>): (b: seq<byte>)
    requires HasDigest(h, len) && len <= size
    ensures |b| == size
  {
    ZeroPad(if |key| > size then h(key) else key, size)
  }

  /** The stretch loop for long keys: rehash and append until a block is covered. */
  ghost function Stretch(h: HashFn, len: nat, acc: seq<byte>, key: seq<byte>, size: nat): (r: seq<byte>)
    requires HasDigest(h, len)
    ensures |r| >= size && acc <= r
    decreases size - |acc|
  {
    if |acc| >= size then acc
    else Stretch(h, len, acc + h(acc + key), key, size)
  }

  /** The key block the Hmac constructor derives. */
  ghost function CodeKey(h: HashFn, len: nat, size: nat, key: seq<byte>): (b: seq<byte>)
    requires HasDigest(h, len)
    ensures |b| == size
  {
    if |key| > size then Stretch(h, len, h(key), key, size)[..size] else ZeroPad(key, size)
  }

  /**
   * For one hash and one key, the key block is that of RFC 2104 exactly when the key fits a block or the stretched
   * bytes behind the first digest happen to be zero.
   */
  lemma KeysAgreeIff(h: HashFn, len: nat, size: nat, key: seq<byte>)
    requires HasDigest(h, len) && len <= size
    ensures CodeKey(h, len, size, key) == RfcKey(h, len, size, key)
       <==> |key| <= size || Stretch(h, len, h(key), key, size)[len..size] == Zeros(size - len)
  {
    hide HasDigest;
    if |key| > size {
      var r := Stretch(h, len, h(key), key, size);
      assert |h(key)| == len by {
        DigestLength(h, len, key);
      }
      assert r[..size] == h(key) + r[len..size];
      assert (h(key) + r[len..size])[len..] == r[len..size];
      assert (h(key) + Zeros(size - len))[len..] == Zeros(size - len);
    }
  }

  lemma DigestLength(h: HashFn, len: nat, x: seq<byte>)
    requires HasDigest(h, len)
    ensures |h(x)| == len
  {}

  ghost predicate AgreesOn(h: HashFn, len: nat, size: nat, key: seq<byte>, text: seq<byte>)
    requires HasDigest(h, len) && len <= size
  {
    HmacOf(h, CodeKey(h, len, size, key), text) == HmacOf(h, RfcKey(h, len, size, key), text)
  }

  /** A hash that tells an outer message whose pad byte after the digest-sized prefix is 0x5c from any other. */
  function Probe(len: nat, size: nat): HashFn {
    (x: seq<byte>) => if |x| == size + len && len < size && x[len] == 0x5c then seq(len, _ => 2) else seq(len, _ => 1)
  }

  /**
   * The construction is RFC 2104 for a given key, whatever the hash and the text, exactly when the key is no
   * longer than a block or a digest already fills a block.
   */
  lemma AgreesWithRfc(len: nat, size: nat, key: seq<byte>)
    requires 1 <= len <= size
    ensures (forall h: HashFn, text: seq<byte> | HasDigest(h, len) :: AgreesOn(h, len, size, key, text))
       <==> (|key| <= size || len == size)
  {
    if |key| > size && len < size {
      ProbeDisagrees(len, size, key);
      assert !AgreesOn(Probe(len, size), len, size, key, []);
    } else {
      forall h: HashFn, text: seq<byte> | HasDigest(h, len)
        ensures AgreesOn(h, len, size, key, text)
      {
        if |key| > size {
          assert |h(key)| == size;
          assert h(key)[..size] == h(key) == ZeroPad(h(key), size);
        }
      }
    }
  }

  lemma ProbeDisagrees(len: nat, size: nat, key: seq<byte>)
    requires 1 <= len < size < |key|
    ensures HasDigest(Probe(len, size), len)
    ensures !AgreesOn(Probe(len, size), len, size, key, [])
  {
    var h := Probe(len, size);
    var ones: seq<byte> := seq(len, _ => 1);
    var acc := h(key);
    // The stretch appends a digest of a message longer than size + len, so its next byte is 1.
    assert h(acc + key) == ones;
    var code, rfc := CodeKey(h, len, size, key), RfcKey(h, len, size, key);
    var stretched := Stretch(h, len, acc, key, size);
    assert stretched == Stretch(h, len, acc + ones, key, size);
    assert (acc + ones)[len] == 1 && stretched[len] == 1;
    assert code[len] == 1 && rfc[len] == 0;
    var innerCode, innerRfc := h(XorAll(code, 0x36) + []), h(XorAll(rfc, 0x36) + []);
    var outerCode, outerRfc := XorAll(code, 0x5c) + innerCode, XorAll(rfc, 0x5c) + innerRfc;
    assert outerCode[len] == 0x5d && outerRfc[len] == 0x5c;
    assert h(outerCode)[0] == 1 && h(outerRfc)[0] == 2;
  }
}
