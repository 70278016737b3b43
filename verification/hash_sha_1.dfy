/** The streaming hash object of src/crypto/hash_sha_1.cc. */
module Sha1Hash {
  import opened Fips180
  import opened Sha1Transform

  type uint32 = x: nat | x < TWO32

  /** sha1Update works in 32 bits: its index arithmetic does not wrap, behind n bytes, for these lengths. */
  predicate IndexFits(n: nat, len: nat) {
    n % 64 + len < TWO32
  }

  const ZERO_REGS := Regs(0, 0, 0, 0, 0)

  /** update narrows its length to 32 bits: the part of the data that it passes on. */
  function Taken(data: seq<byte>): (t: seq<byte>)
    ensures |t| == |data| % 0x1_0000_0000 && t <= data
    ensures t == data <==> |data| < TWO32
  {
    data[..|data| % TWO32]
  }

  /** The block branch of sha1Update, taken on a sum modulo 2^32, is the right one exactly for these lengths. */
  lemma BranchIsRightIff(n: nat, len: nat)
    requires len < TWO32
    ensures ((n % 64 + len) % TWO32 > 63 <==> n % 64 + len > 63) <==> IndexFits(n, len)
  {
    var j := n % 64;
    if j + len >= TWO32 {
      assert (j + len) % TWO32 == j + len - TWO32;
    }
  }

  /** With one byte buffered, the longest length of all wraps the sum to zero: the full block is not seen. */
  lemma LongestLengthWraps()
    ensures !IndexFits(1, TWO32 - 1) && (1 + (TWO32 - 1)) % TWO32 == 0
  {}

  /** Of 2^32 bytes, update passes on none. */
  lemma LongChunkIsDropped(data: seq<byte>)
    requires |data| == TWO32
    ensures Taken(data) == []
  {}

  /** memcpy into a buffer. */
  method Memcpy(dst: array<byte>, at: nat, src: seq<byte>)
    requires at + |src| <= dst.Length
    modifies dst
    ensures dst[..] == old(dst[..at]) + src + old(dst[at + |src|..])
  {
    forall k | 0 <= k < |src| {
      dst[at + k] := src[k];
    }
  }

  /** The part of n bytes that makes whole blocks. */
  function Whole(n: nat): (w: nat)
    ensures w % 64 == 0 && w <= n < w + 64
  {
    n - n % 64
  }

  /** The carry across the two 32-bit count words implements a 64-bit sum. */
  lemma CountAdds(n: nat, len: nat, low: nat, high: nat, add: nat, low': nat, carry: nat, high': nat)
    requires low < TWO32 && high < TWO32 && high * TWO32 + low == 8 * n % TWO64
    requires len < TWO32 && add == 8 * len % TWO32
    requires low' == (low + add) % TWO32
    requires carry == if low' < add then 1 else 0
    requires high' == ((high + carry) % TWO32 + len / 0x2000_0000) % TWO32
    ensures high' * TWO32 + low' == 8 * (n + len) % TWO64
  {
    assert 8 * len == len / 0x2000_0000 * TWO32 + add;
    assert low + add == carry * TWO32 + low';
    var high1 := (high + carry) % TWO32;
    var k := 8 * n / TWO64;
    var c1 := (high + carry) / TWO32;
    var c2 := (high1 + len / 0x2000_0000) / TWO32;
    assert 8 * (n + len) == (k + c1 + c2) * TWO64 + (high' * TWO32 + low');
    ModIs(8 * (n + len), k + c1 + c2, high' * TWO32 + low');
  }

  lemma ModIs(x: nat, k: nat, r: nat)
    requires x == k * TWO64 + r && r < TWO64
    ensures x % TWO64 == r
  {}

  /** The low count word alone gives the fill of the buffer. */
  lemma CountGivesFill(n: nat, low: nat, high: nat)
    requires low < TWO32 && high * TWO32 + low == 8 * n % TWO64
    ensures low / 8 % 64 == n % 64
  {
    var k := 8 * n / TWO64;
    assert 8 * n == k * TWO64 + high * TWO32 + low;
    var q := k * 0x80_0000_0000_0000 + high * 0x80_0000;
    assert low == 8 * (n - 64 * q);
    DivMod(n, q, low);
  }

  lemma DivMod(n: nat, q: nat, low: nat)
    requires low == 8 * (n - 64 * q)
    ensures low / 8 % 64 == n % 64
  {
    assert low / 8 == n - 64 * q;
  }

  class HashSha1 {
    const state: array<word>
    const buffer: array<byte>
    var countLow: uint32
    var countHigh: uint32

    // The initial value in force and the bytes absorbed since: what the object means.
    ghost var iv: Regs
    ghost var absorbed: seq<byte>

    ghost function Repr(): set<object> { {this, state, buffer} }

    /** The two count words hold the bit count of n bytes, modulo 2^64. */
    ghost predicate Counts(n: nat)
      reads `countLow, `countHigh
    {
      countHigh * TWO32 + countLow == 8 * n % TWO64
    }

    /** The state has absorbed the whole blocks of m and the buffer starts with the rest. */
    ghost predicate Holds(m: seq<byte>)
      reads `iv, state, buffer
    {
      && state.Length == 5 && buffer.Length == 64
      && StateRegs(state[..]) == HashBlocks(iv, m[..Whole(|m|)])
      && buffer[..|m| % 64] == m[Whole(|m|)..]
    }

    ghost predicate Valid()
      reads this, state, buffer
    {
      Counts(|absorbed|) && Holds(absorbed)
    }

    constructor ()
      ensures Valid() && fresh(Repr())
      ensures iv == INITIAL_HASH && absorbed == []
    {
      hide Valid, HashBlocks;
      state := new word[5];
      buffer := new byte[64];
      countLow, countHigh := 0, 0;
      new;
      Sha1Init();
    }

    method Reset()
      requires Valid()
      modifies this, state, buffer
      ensures Valid() && iv == INITIAL_HASH && absorbed == []
    {
      Sha1Init();
    }

    method Sha1Init()
      requires state.Length == 5 && buffer.Length == 64
      modifies this, state, buffer
      ensures Valid() && iv == INITIAL_HASH && absorbed == []
    {
      state[0] := 0x67452301;
      state[1] := 0xEFCDAB89;
      state[2] := 0x98BADCFE;
      state[3] := 0x10325476;
      state[4] := 0xC3D2E1F0;
      countLow, countHigh := 0, 0;
      Memcpy(buffer, 0, Zeros(64));
      iv, absorbed := INITIAL_HASH, [];
    }

    method AddCount(len: nat)
      requires len < TWO32 && Counts(|absorbed|)
      modifies `countLow, `countHigh
      ensures Counts(|absorbed| + len)
    {
      var add := 8 * len % TWO32;
      var low := (countLow + add) % TWO32;
      var carry := if low < add then 1 else 0;
      var high := ((countHigh + carry) % TWO32 + len / 0x2000_0000) % TWO32;
      CountAdds(|absorbed|, len, countLow, countHigh, add, low, carry, high);
      countLow, countHigh := low, high;
    }

    method Sha1Update(data: seq<byte>)
      requires Valid() && IndexFits(|absorbed|, |data|)
      modifies this, state, buffer
      ensures Valid() && iv == old(iv) && absorbed == old(absorbed) + data
    {
      hide Holds, Counts;
      CountFill();
      var j := countLow / 8 % 64;
      AddCount(|data|);
      AbsorbData(j, data);
      absorbed := absorbed + data;
    }

    /** The part of sha1Update that moves the data: j is the fill of the buffer. */
    method AbsorbData(j: nat, data: seq<byte>)
      requires Holds(absorbed) && j == |absorbed| % 64 && IndexFits(|absorbed|, |data|)
      modifies state, buffer
      ensures Holds(absorbed + data)
    {
      hide HashBlocks, StateRegs, Compress, Holds;
      ghost var n, total := |absorbed|, absorbed + data;
      var len := |data|;
      if j + len > 63 {
        var i := 64 - j;
        FillBuffer(j, data[..i], total);
        i := HashWhole(data, i, n, total);
        assert buffer[..0] + data[i..] == total[n + i..];
        KeepRest(0, data[i..], n + i, total);
      } else {
        HoldsPrefix(total);
        assert buffer[..j] + data == total[Whole(n)..];
        KeepRest(j, data, Whole(n), total);
      }
    }

    lemma HoldsPrefix(total: seq<byte>)
      requires Holds(absorbed) && absorbed <= total
      ensures state.Length == 5 && buffer.Length == 64
      ensures StateRegs(state[..]) == HashBlocks(iv, total[..Whole(|absorbed|)])
      ensures buffer[..|absorbed| % 64] == total[Whole(|absorbed|)..|absorbed|]
    {
      hide HashBlocks, StateRegs;
      assert absorbed[..Whole(|absorbed|)] == total[..Whole(|absorbed|)];
    }

    /** Completes the buffered block with head and hashes it. */
    method FillBuffer(j: nat, head: seq<byte>, ghost total: seq<byte>)
      requires Holds(absorbed) && j == |absorbed| % 64 && j + |head| == 64
      requires absorbed + head <= total
      modifies state, buffer
      ensures state.Length == 5 && buffer.Length == 64
      ensures StateRegs(state[..]) == HashBlocks(iv, total[..|absorbed| + |head|])
    {
      hide HashBlocks, StateRegs, Compress;
      ghost var done := Whole(|absorbed|);
      assert total[..done] == absorbed[..done];
      Memcpy(buffer, j, head);
      assert buffer[..] == absorbed[done..] + head == total[done..done + 64];
      TakeBlock(iv, total, done);
      Transform(state, buffer[..]);
    }

    /** Hashes the further whole blocks straight from the input. */
    method HashWhole(data: seq<byte>, start: nat, ghost n: nat, ghost total: seq<byte>) returns (i: nat)
      requires state.Length == 5 && IndexFits(n, |data|)
      requires start <= |data| && (n + start) % 64 == 0
      requires n + |data| == |total| && total[n..] == data
      requires StateRegs(state[..]) == HashBlocks(iv, total[..n + start])
      modifies state
      ensures i <= |data| < i + 64 && (n + i) % 64 == 0
      ensures StateRegs(state[..]) == HashBlocks(iv, total[..n + i])
    {
      hide HashBlocks, StateRegs, Compress;
      i := start;
      while i + 63 < |data|
        invariant i <= |data| && (n + i) % 64 == 0
        invariant StateRegs(state[..]) == HashBlocks(iv, total[..n + i])
      {
        assert data[i..i + 64] == total[n + i..n + i + 64];
        TakeBlock(iv, total, n + i);
        Transform(state, data[i..i + 64]);
        i := i + 64;
      }
      // The sum in the guard never wrapped, not even for the last value of i.
      assert i + 63 < TWO32;
    }

    /** Buffers the tail that does not fill a block; the state stands at the block boundary start. */
    method KeepRest(j: nat, rest: seq<byte>, ghost start: nat, ghost total: seq<byte>)
      requires state.Length == 5 && buffer.Length == 64
      requires start % 64 == 0 && j + |rest| < 64 && start + j + |rest| == |total|
      requires StateRegs(state[..]) == HashBlocks(iv, total[..start])
      requires buffer[..j] + rest == total[start..]
      modifies buffer
      ensures Holds(total)
    {
      hide HashBlocks, StateRegs;
      Memcpy(buffer, j, rest);
      assert buffer[..j + |rest|] == total[start..];
      assert Whole(|total|) == start;
    }

    method Update(data: seq<byte>)
      requires Valid() && IndexFits(|absorbed|, |Taken(data)|)
      modifies this, state, buffer
      ensures Valid() && iv == old(iv)
      ensures absorbed == old(absorbed) + Taken(data)
    {
      Sha1Update(Taken(data));
    }

    /** digest(): pads, reads the hash value out and wipes the object. */
    method Sha1Final(digest: array<byte>)
      requires Valid() && digest.Length == 20 && digest != buffer
      modifies this, state, buffer, digest
      ensures Valid() && iv == ZERO_REGS && absorbed == []
      ensures digest[..] == Sha1From(old(iv), old(absorbed))
    {
      hide HashBlocks, WordByte, NatByte, ZeroCount, LengthBlock;
      ghost var m := absorbed;
      hide Valid, RegsBytes, StateRegs;
      var finalcount := LengthBytes();
      Sha1Update([0x80]);
      PadTo56(m);
      Sha1Update(finalcount);
      assert absorbed == Pad(m);
      StateIsHash();
      ReadState(digest);
      Wipe();
    }

    lemma StateIsHash()
      requires Valid() && |absorbed| % 64 == 0
      ensures state.Length == 5 && buffer.Length == 64
      ensures StateRegs(state[..]) == HashBlocks(iv, absorbed)
    {
      hide HashBlocks, StateRegs;
      assert absorbed[..Whole(|absorbed|)] == absorbed;
    }

    method ReadState(digest: array<byte>)
      requires state.Length == 5 && digest.Length == 20
      modifies digest
      ensures digest[..] == RegsBytes(StateRegs(state[..]))
      ensures forall t :: 0 <= t < 5 ==> LoadBE(digest[..], t) == state[t]
    {
      hide WordByte, RegsBytes, LoadBE;
      var i := 0;
      while i < 20
        invariant i <= 20
        invariant forall k :: 0 <= k < i ==> digest[k] == WordByte(state[k / 4], k % 4)
      {
        digest[i] := WordByte(state[i / 4], i % 4);
        i := i + 1;
      }
      BytesOfWords(state[..], digest[..]);
      RegsSpelled(StateRegs(state[..]));
    }

    /** The count words as eight big-endian bytes. */
    method LengthBytes() returns (s: seq<byte>)
      requires Valid()
      ensures s == LengthBlock(|absorbed|)
    {
      hide NatByte, LengthBlock, Holds;
      var finalcount := new byte[8];
      var i := 0;
      while i < 8
        invariant i <= 8
        invariant forall k :: 0 <= k < i ==> finalcount[k] == NatByte(if k >= 4 then countLow else countHigh, k % 4)
      {
        finalcount[i] := NatByte(if i >= 4 then countLow else countHigh, i % 4);
        i := i + 1;
      }
      s := finalcount[..];
      BytesOfCount(|absorbed|, countLow, countHigh, s);
    }

    /** Appends zero bytes until the fill is 56, one at a time. */
    method PadTo56(ghost m: seq<byte>)
      requires Valid() && absorbed == m + [0x80]
      modifies this, state, buffer
      ensures Valid() && iv == old(iv)
      ensures absorbed == m + [0x80] + Zeros(ZeroCount(|m|))
    {
      hide Valid, ZeroCount;
      ghost var zeros := 0;
      assert absorbed == m + [0x80] + Zeros(0);
      CountFill();
      while countLow / 8 % 64 != 56
        invariant Valid() && iv == old(iv)
        invariant absorbed == m + [0x80] + Zeros(zeros)
        invariant zeros <= ZeroCount(|m|)
        invariant countLow / 8 % 64 == |absorbed| % 64
        decreases ZeroCount(|m|) - zeros
      {
        assert !PadsTo56(|m|, zeros);
        Sha1Update([0]);
        zeros := zeros + 1;
        assert absorbed == m + [0x80] + Zeros(zeros);
        CountFill();
      }
      assert PadsTo56(|m|, zeros);
    }

    lemma CountFill()
      requires Valid()
      ensures countLow / 8 % 64 == |absorbed| % 64
    {
      CountGivesFill(|absorbed|, countLow, countHigh);
    }

    method Wipe()
      requires state.Length == 5 && buffer.Length == 64
      modifies this, state, buffer
      ensures Valid() && iv == ZERO_REGS && absorbed == []
    {
      Memcpy(buffer, 0, Zeros(64));
      forall k | 0 <= k < 5 {
        state[k] := 0;
      }
      countLow, countHigh := 0, 0;
      iv, absorbed := ZERO_REGS, [];
    }

    method Digest() returns (d: seq<byte>)
      requires Valid()
      modifies this, state, buffer
      ensures Valid() && iv == ZERO_REGS && absorbed == []
      ensures d == Sha1From(old(iv), old(absorbed))
    {
      var out := new byte[20];
      Sha1Final(out);
      d := out[..];
    }

    /** Hash::hash of src/crypto/hash.h. */
    method Hash(data: seq<byte>) returns (d: seq<byte>)
      requires Valid() && IndexFits(|absorbed|, |Taken(data)|)
      modifies this, state, buffer
      ensures Valid() && iv == ZERO_REGS && absorbed == []
      ensures d == Sha1From(old(iv), old(absorbed) + Taken(data))
    {
      hide Valid, Sha1From;
      Update(data);
      d := Digest();
    }
  }

  lemma BytesOfWords(s: seq<word>, d: seq<byte>)
    requires |s| == 5 && |d| == 20
    requires forall k :: 0 <= k < 20 ==> d[k] == WordByte(s[k / 4], k % 4)
    ensures d == RegsBytes(StateRegs(s))
  {
    hide WordByte, StoreBE;
    WordBytes(s, d, 0);
    WordBytes(s, d, 1);
    WordBytes(s, d, 2);
    WordBytes(s, d, 3);
    WordBytes(s, d, 4);
    FiveFours(d);
  }

  lemma FiveFours(d: seq<byte>)
    requires |d| == 20
    ensures d == d[0..4] + d[4..8] + d[8..12] + d[12..16] + d[16..20]
  {}

  lemma WordBytes(s: seq<word>, d: seq<byte>, i: nat)
    requires |s| == 5 && |d| == 20 && i < 5
    requires forall k :: 0 <= k < 20 ==> d[k] == WordByte(s[k / 4], k % 4)
    ensures d[4 * i..4 * i + 4] == StoreBE(s[i])
  {
    hide WordByte;
    assert d[4 * i] == WordByte(s[i], 0);
    assert d[4 * i + 1] == WordByte(s[i], 1);
    assert d[4 * i + 2] == WordByte(s[i], 2);
    assert d[4 * i + 3] == WordByte(s[i], 3);
  }

  lemma BytesOfCount(n: nat, low: nat, high: nat, s: seq<byte>)
    requires low < TWO32 && high < TWO32 && high * TWO32 + low == 8 * n % TWO64
    requires |s| == 8 && forall k :: 0 <= k < 8 ==> s[k] == NatByte(if k >= 4 then low else high, k % 4)
    ensures s == LengthBlock(n)
  {
    hide NatByte;
    assert high == 8 * n % TWO64 / TWO32 && low == 8 * n % TWO64 % TWO32;
    assert s[0..4] == NatBE32(high);
    assert s[4..8] == NatBE32(low);
    assert s == s[0..4] + s[4..8];
  }

  lemma TakeBlock(iv: Regs, total: seq<byte>, done: nat)
    requires done % 64 == 0 && done + 64 <= |total|
    ensures HashBlocks(iv, total[..done + 64]) == Compress(HashBlocks(iv, total[..done]), total[done..done + 64])
  {
    assert total[..done + 64] == total[..done] + total[done..done + 64];
    HashBlocksAppend(iv, total[..done], total[done..done + 64]);
  }
}
