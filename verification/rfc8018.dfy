/** PBKDF2 as section 5.2 of RFC 8018 defines it, over any pseudorandom function. */
module Rfc8018 {
  import opened Fips180

  type Prf = seq<byte> -> seq<byte>

  /** p maps every input to len octets. */
  ghost predicate HasLength(p: Prf, len: nat) {
    len >= 1 && forall x :: |p(x)| == len
  }

  function XorSeq(a: seq<byte>, b: seq<byte>): (r: seq<byte>)
    requires |a| == |b|
    ensures |r| == |a| && forall k :: 0 <= k < |a| ==> r[k] == a[k] ^ b[k]
  {
    seq(|a|, k requires 0 <= k < |a| => a[k] ^ b[k])
  }

  /** U_j of block i. */
  function U(p: Prf, salt: seq<byte>, i: nat, j: nat): seq<byte>
    requires j >= 1
  {
    if j == 1 then p(salt + NatBE32(i)) else p(U(p, salt, i, j - 1))
  }

  /** T_i: the exclusive-or of U_1 to U_c. */
  ghost function T(p: Prf, len: nat, salt: seq<byte>, c: nat, i: nat): (t: seq<byte>)
    requires HasLength(p, len) && c >= 1
    ensures |t| == len
  {
    if c == 1 then U(p, salt, i, 1) else XorSeq(T(p, len, salt, c - 1, i), U(p, salt, i, c))
  }

  /** T_1 to T_n, concatenated. */
  ghost function Blocks(p: Prf, len: nat, salt: seq<byte>, c: nat, n: nat): (b: seq<byte>)
    requires HasLength(p, len) && c >= 1
    ensures |b| == n * len
  {
    if n == 0 then [] else Blocks(p, len, salt, c, n - 1) + T(p, len, salt, c, n)
  }

  function CeilDiv(a: nat, b: nat): (q: nat)
    requires b >= 1
    ensures a <= q * b < a + b
  {
    (a + b - 1) / b
  }

  /** The derived key: the first dkLen octets of the blocks that are just enough. */
  ghost function Derived(p: Prf, len: nat, salt: seq<byte>, c: nat, dkLen: nat): (dk: seq<byte>)
    requires HasLength(p, len) && c >= 1
    ensures |dk| == dkLen
  {
    Blocks(p, len, salt, c, CeilDiv(dkLen, len))[..dkLen]
  }

  lemma {:induction false} BlocksPrefix(p: Prf, len: nat, salt: seq<byte>, c: nat, m: nat, n: nat)
    requires HasLength(p, len) && c >= 1 && m <= n
    ensures Blocks(p, len, salt, c, m) <= Blocks(p, len, salt, c, n)
    decreases n
  {
    hide HasLength, T;
    if m < n {
      BlocksPrefix(p, len, salt, c, m, n - 1);
    }
  }

  lemma MulMonotone(a: nat, b: nat, c: nat)
    requires a <= b && c >= 1
    ensures a <= a * c <= b * c
  {
    assert b * c == a * c + (b - a) * c;
    assert a * c == a + a * (c - 1);
  }

  /** Two functions that agree on all texts that a salt of this length leads to. */
  ghost predicate AgreeBelow(p: Prf, q: Prf, bound: nat) {
    forall text :: |text| < bound ==> p(text) == q(text)
  }

  lemma {:induction false} UAgrees(p: Prf, q: Prf, len: nat, bound: nat, salt: seq<byte>, i: nat, j: nat)
    requires HasLength(p, len) && HasLength(q, len) && AgreeBelow(p, q, bound)
    requires len < bound && |salt| + 4 < bound && j >= 1
    ensures U(p, salt, i, j) == U(q, salt, i, j) && |U(p, salt, i, j)| == len
  {
    hide NatBE32;
    if j == 1 {
      assert p(salt + NatBE32(i)) == q(salt + NatBE32(i));
    } else {
      UAgrees(p, q, len, bound, salt, i, j - 1);
      var u := U(p, salt, i, j - 1);
      assert p(u) == q(u);
    }
  }

  lemma {:induction false} TAgrees(p: Prf, q: Prf, len: nat, bound: nat, salt: seq<byte>, c: nat, i: nat)
    requires HasLength(p, len) && HasLength(q, len) && AgreeBelow(p, q, bound)
    requires len < bound && |salt| + 4 < bound && c >= 1
    ensures T(p, len, salt, c, i) == T(q, len, salt, c, i)
  {
    UAgrees(p, q, len, bound, salt, i, c);
    hide AgreeBelow, U;
    if c > 1 {
      TAgrees(p, q, len, bound, salt, c - 1, i);
    }
  }

  lemma {:induction false} BlocksAgree(p: Prf, q: Prf, len: nat, bound: nat, salt: seq<byte>, c: nat, n: nat)
    requires HasLength(p, len) && HasLength(q, len) && AgreeBelow(p, q, bound)
    requires len < bound && |salt| + 4 < bound && c >= 1
    ensures Blocks(p, len, salt, c, n) == Blocks(q, len, salt, c, n)
  {
    hide HasLength, AgreeBelow, T;
    if n > 0 {
      TAgrees(p, q, len, bound, salt, c, n);
      BlocksAgree(p, q, len, bound, salt, c, n - 1);
    }
  }

  /** The derived key depends on the function only on texts up to the longer of salt and digest. */
  lemma DerivedAgrees(p: Prf, q: Prf, len: nat, bound: nat, salt: seq<byte>, c: nat, dkLen: nat)
    requires HasLength(p, len) && HasLength(q, len) && AgreeBelow(p, q, bound)
    requires len < bound && |salt| + 4 < bound && c >= 1
    ensures Derived(p, len, salt, c, dkLen) == Derived(q, len, salt, c, dkLen)
  {
    BlocksAgree(p, q, len, bound, salt, c, CeilDiv(dkLen, len));
  }

  lemma LengthIsPositive(p: Prf, len: nat)
    requires HasLength(p, len)
    ensures len >= 1
  {}

  /** Computing more blocks than necessary does not change the derived key. */
  lemma MoreBlocksSameKey(p: Prf, len: nat, salt: seq<byte>, c: nat, dkLen: nat, n: nat)
    requires HasLength(p, len) && c >= 1 && n >= dkLen
    ensures n * len >= dkLen
    ensures Blocks(p, len, salt, c, n)[..dkLen] == Derived(p, len, salt, c, dkLen)
  {
    hide Blocks, CeilDiv, HasLength;
    LengthIsPositive(p, len);
    var q := CeilDiv(dkLen, len);
    if q > dkLen {
      MulMonotone(dkLen + 1, q, len);
    }
    MulMonotone(dkLen, n, len);
    MulMonotone(q, n, len);
    BlocksPrefix(p, len, salt, c, q, n);
  }
}
