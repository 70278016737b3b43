/** The in-place SHA-1 compression of src/crypto/hash_sha_1.cc: ring schedule and role-permuted rounds. */
module Sha1Transform {
  import opened Fips180

  /** Word i of a block as a little-endian host reads it. */
  function LoadLE(m: seq<byte>, i: nat): word
    requires 4 * i + 4 <= |m|
  {
    (m[4 * i] as word) | (m[4 * i + 1] as word << 8) | (m[4 * i + 2] as word << 16) | (m[4 * i + 3] as word << 24)
  }

  /** Before round i the ring holds the last 16 schedule words, and below round 16 the raw words still to come. */
  ghost predicate Ring(i: nat, l: seq<word>, m: seq<byte>)
    requires |m| == 64 && |l| == 16 && i <= 80
  {
    && (forall t :: 0 <= t < i && i - 16 <= t ==> l[t % 16] == Schedule(m)[t])
    && (forall k :: i <= k < 16 ==> l[k] == LoadLE(m, k))
  }

  /** Before round i the working variables, read in role order, are the FIPS registers after i rounds. */
  ghost predicate At(i: nat, r: Regs, l: seq<word>, h: Regs, m: seq<byte>) {
    && |m| == 64 && |l| == 16 && i <= 80
    && r == Rounds(Schedule(m)[..i], h)
    && Ring(i, l, m)
  }

  lemma ByteSwapIsBigEndian(m: seq<byte>, i: nat)
    requires 4 * i + 4 <= |m|
    ensures (Rol(LoadLE(m, i), 24) & 0xFF00FF00) | (Rol(LoadLE(m, i), 8) & 0x00FF00FF) == LoadBE(m, i)
  {
    SwapWord(m[4 * i], m[4 * i + 1], m[4 * i + 2], m[4 * i + 3]);
  }

  lemma SwapWord(a: byte, b: byte, c: byte, d: byte)
    ensures var l := (a as word) | (b as word << 8) | (c as word << 16) | (d as word << 24);
            (Rol(l, 24) & 0xFF00FF00) | (Rol(l, 8) & 0x00FF00FF)
            == (a as word << 24) | (b as word << 16) | (c as word << 8) | (d as word)
  {}

  lemma ChooseRewritten(x: word, y: word, z: word)
    ensures (x & (y ^ z)) ^ z == Ch(x, y, z)
  {}

  lemma MajorityRewritten(x: word, y: word, z: word)
    ensures ((x | y) & z) | (x & y) == Maj(x, y, z)
  {}

  lemma AddReorder(p: word, q: word, r: word, s: word, t: word)
    ensures Add(Add(Add(Add(p, q), r), s), t) == Add(r, Add(Add(Add(q, t), s), p))
  {
    hide Add;
    calc {
      Add(Add(Add(Add(p, q), r), s), t);
      { AddAssociates(Add(Add(p, q), r), s, t); }
      Add(Add(Add(p, q), r), Add(s, t));
      { AddCommutes(Add(p, q), r); AddAssociates(r, Add(p, q), Add(s, t)); }
      Add(r, Add(Add(p, q), Add(s, t)));
      { AddAssociates(p, q, Add(s, t)); AddCommutes(p, Add(q, Add(s, t))); }
      Add(r, Add(Add(q, Add(s, t)), p));
      { AddCommutes(s, t); AddAssociates(q, t, s); }
      Add(r, Add(Add(Add(q, t), s), p));
    }
  }

  lemma AddCommutes(x: word, y: word)
    ensures Add(x, y) == Add(y, x)
  {}

  lemma AddAssociates(x: word, y: word, z: word)
    ensures Add(Add(x, y), z) == Add(x, Add(y, z))
  {
    hide Add;
    AddIsPlus(x, y);
    AddIsPlus(y, z);
    AddSumLeft(x, y, z);
    AddSumRight(x, y, z);
  }

  lemma AddIsPlus(x: word, y: word)
    ensures Add(x, y) == x + y
  {}

  lemma AddSumLeft(x: word, y: word, z: word)
    ensures Add(x + y, z) == x + y + z
  {}

  lemma AddSumRight(x: word, y: word, z: word)
    ensures Add(x, y + z) == x + (y + z)
  {}

  /** The sum the R macros compute, in their own order, is the first register of the FIPS step. */
  lemma StepSum(i: nat, r: Regs, blk: word)
    ensures Step(i, r, blk).a == Add(r.e, Add(Add(Add(F(i, r.b, r.c, r.d), blk), K(i)), Rol(r.a, 5)))
  {
    hide Rol, F, K, Add;
    AddReorder(Rol(r.a, 5), F(i, r.b, r.c, r.d), r.e, K(i), blk);
  }

  lemma OneRound(i: nat, r: Regs, l: seq<word>, l': seq<word>, h: Regs, m: seq<byte>)
    requires At(i, r, l, h, m) && i < 80 && |l'| == 16 && Ring(i + 1, l', m)
    ensures At(i + 1, Step(i, r, Schedule(m)[i]), l', h, m)
  {
    var w := Schedule(m);
    assert w[..i + 1][..i] == w[..i];
  }

  lemma Start(h: Regs, l: seq<word>, m: seq<byte>)
    requires |m| == 64 && |l| == 16 && forall k :: 0 <= k < 16 ==> l[k] == LoadLE(m, k)
    ensures At(0, h, l, h, m)
  {
    hide Step, LoadLE, LoadBE, NextWord;
  }

  lemma Finish(r: Regs, l: seq<word>, h: Regs, m: seq<byte>)
    requires At(80, r, l, h, m)
    ensures r == Rounds(Schedule(m), h)
  {
    hide Step, Ring, Rounds, LoadLE, LoadBE, NextWord;
    assert Schedule(m)[..80] == Schedule(m);
  }

  method Blk0(l: array<word>, i: nat, ghost m: seq<byte>) returns (w: word)
    requires l.Length == 16 && |m| == 64 && i < 16 && Ring(i, l[..], m)
    modifies l
    ensures Ring(i + 1, l[..], m) && w == Schedule(m)[i]
  {
    hide Rol, Schedule, LoadBE, LoadLE;
    ByteSwapIsBigEndian(m, i);
    RingAdvances(i, l[..], m);
    ghost var before := l[..];
    l[i] := (Rol(l[i], 24) & 0xFF00FF00) | (Rol(l[i], 8) & 0x00FF00FF);
    w := l[i];
    assert l[..] == before[i % 16 := w];
  }

  /** The four ring slots that expansion reads hold W[i-3], W[i-8], W[i-14] and W[i-16]. */
  lemma RingReads(i: nat, l: seq<word>, m: seq<byte>)
    requires |m| == 64 && |l| == 16 && 16 <= i < 80 && Ring(i, l, m)
    ensures Schedule(m)[i] == Rol(l[(i + 13) % 16] ^ l[(i + 8) % 16] ^ l[(i + 2) % 16] ^ l[i % 16], 1)
  {
    hide Rol, Ring, Schedule;
    ScheduleNext(m, i);
    RingSlot(i, l, m, 3);
    RingSlot(i, l, m, 8);
    RingSlot(i, l, m, 14);
    RingSlot(i, l, m, 16);
  }

  lemma ScheduleNext(m: seq<byte>, i: nat)
    requires |m| == 64 && 16 <= i < 80
    ensures var ws := Schedule(m); ws[i] == Rol(ws[i - 3] ^ ws[i - 8] ^ ws[i - 14] ^ ws[i - 16], 1)
  {
    hide Rol, LoadBE, Schedule;
    assert Expanded(Schedule(m), i);
    NextFromPrefix(Schedule(m), i);
  }

  lemma NextFromPrefix(ws: seq<word>, i: nat)
    requires 16 <= i <= |ws|
    ensures NextWord(ws[..i]) == Rol(ws[i - 3] ^ ws[i - 8] ^ ws[i - 14] ^ ws[i - 16], 1)
  {
    hide Rol;
  }

  /** The slot 16 - back behind i holds the schedule word back before W[i]. */
  lemma RingSlot(i: nat, l: seq<word>, m: seq<byte>, back: nat)
    requires |m| == 64 && |l| == 16 && 16 <= i < 80 && Ring(i, l, m) && 1 <= back <= 16
    ensures l[(i + 16 - back) % 16] == Schedule(m)[i - back]
  {
    hide LoadLE, Schedule;
    assert (i + 16 - back) % 16 == (i - back) % 16;
  }

  /** Overwriting slot i mod 16 with W[i] drops only W[i-16]. */
  lemma RingAdvances(i: nat, l: seq<word>, m: seq<byte>)
    requires |m| == 64 && |l| == 16 && i < 80 && Ring(i, l, m)
    ensures Ring(i + 1, l[i % 16 := Schedule(m)[i]], m)
  {
    hide LoadBE, LoadLE, Schedule;
    var ws, l' := Schedule(m), l[i % 16 := Schedule(m)[i]];
    forall t | 0 <= t < i + 1 && i + 1 - 16 <= t
      ensures l'[t % 16] == ws[t]
    {
      if t < i {
        assert t % 16 != i % 16;
        assert l[t % 16] == ws[t];
      }
    }
  }

  method Blk(l: array<word>, i: nat, ghost m: seq<byte>) returns (w: word)
    requires l.Length == 16 && |m| == 64 && 16 <= i < 80 && Ring(i, l[..], m)
    modifies l
    ensures Ring(i + 1, l[..], m) && w == Schedule(m)[i]
  {
    hide Rol, Ring, Schedule;
    RingReads(i, l[..], m);
    RingAdvances(i, l[..], m);
    ghost var before := l[..];
    l[i % 16] := Rol(l[(i + 13) % 16] ^ l[(i + 8) % 16] ^ l[(i + 2) % 16] ^ l[i % 16], 1);
    w := l[i % 16];
    assert l[..] == before[i % 16 := w];
  }

  method R0(v: word, w: word, x: word, y: word, z: word, l: array<word>, i: nat, ghost h: Regs, ghost m: seq<byte>)
    returns (z': word, w': word)
    requires 0 <= i < 16 && l.Length == 16 && At(i, Regs(v, w, x, y, z), l[..], h, m)
    modifies l
    ensures At(i + 1, Regs(z', v, w', x, y), l[..], h, m)
  {
    hide Add, Rol, Ch, Maj, Rounds, Schedule, Ring;
    ghost var r, before := Regs(v, w, x, y, z), l[..];
    var blk := Blk0(l, i, m);
    z' := Add(z, Add(Add(Add(((w & (x ^ y)) ^ y), blk), 0x5A827999), Rol(v, 5)));
    w' := Rol(w, 30);
    ChooseRewritten(w, x, y);
    StepSum(i, r, blk);
    OneRound(i, r, before, l[..], h, m);
  }

  method R1(v: word, w: word, x: word, y: word, z: word, l: array<word>, i: nat, ghost h: Regs, ghost m: seq<byte>)
    returns (z': word, w': word)
    requires 16 <= i < 20 && l.Length == 16 && At(i, Regs(v, w, x, y, z), l[..], h, m)
    modifies l
    ensures At(i + 1, Regs(z', v, w', x, y), l[..], h, m)
  {
    hide Add, Rol, Ch, Maj, Rounds, Schedule, Ring;
    ghost var r, before := Regs(v, w, x, y, z), l[..];
    var blk := Blk(l, i, m);
    z' := Add(z, Add(Add(Add(((w & (x ^ y)) ^ y), blk), 0x5A827999), Rol(v, 5)));
    w' := Rol(w, 30);
    ChooseRewritten(w, x, y);
    StepSum(i, r, blk);
    OneRound(i, r, before, l[..], h, m);
  }

  method R2(v: word, w: word, x: word, y: word, z: word, l: array<word>, i: nat, ghost h: Regs, ghost m: seq<byte>)
    returns (z': word, w': word)
    requires 20 <= i < 40 && l.Length == 16 && At(i, Regs(v, w, x, y, z), l[..], h, m)
    modifies l
    ensures At(i + 1, Regs(z', v, w', x, y), l[..], h, m)
  {
    hide Add, Rol, Ch, Maj, Rounds, Schedule, Ring;
    ghost var r, before := Regs(v, w, x, y, z), l[..];
    var blk := Blk(l, i, m);
    z' := Add(z, Add(Add(Add((w ^ x ^ y), blk), 0x6ED9EBA1), Rol(v, 5)));
    w' := Rol(w, 30);
    StepSum(i, r, blk);
    OneRound(i, r, before, l[..], h, m);
  }

  method R3(v: word, w: word, x: word, y: word, z: word, l: array<word>, i: nat, ghost h: Regs, ghost m: seq<byte>)
    returns (z': word, w': word)
    requires 40 <= i < 60 && l.Length == 16 && At(i, Regs(v, w, x, y, z), l[..], h, m)
    modifies l
    ensures At(i + 1, Regs(z', v, w', x, y), l[..], h, m)
  {
    hide Add, Rol, Ch, Maj, Rounds, Schedule, Ring;
    ghost var r, before := Regs(v, w, x, y, z), l[..];
    var blk := Blk(l, i, m);
    z' := Add(z, Add(Add(Add((((w | x) & y) | (w & x)), blk), 0x8F1BBCDC), Rol(v, 5)));
    w' := Rol(w, 30);
    MajorityRewritten(w, x, y);
    StepSum(i, r, blk);
    OneRound(i, r, before, l[..], h, m);
  }

  method R4(v: word, w: word, x: word, y: word, z: word, l: array<word>, i: nat, ghost h: Regs, ghost m: seq<byte>)
    returns (z': word, w': word)
    requires 60 <= i < 80 && l.Length == 16 && At(i, Regs(v, w, x, y, z), l[..], h, m)
    modifies l
    ensures At(i + 1, Regs(z', v, w', x, y), l[..], h, m)
  {
    hide Add, Rol, Ch, Maj, Rounds, Schedule, Ring;
    ghost var r, before := Regs(v, w, x, y, z), l[..];
    var blk := Blk(l, i, m);
    z' := Add(z, Add(Add(Add((w ^ x ^ y), blk), 0xCA62C1D6), Rol(v, 5)));
    w' := Rol(w, 30);
    StepSum(i, r, blk);
    OneRound(i, r, before, l[..], h, m);
  }

  /** The first 20 unrolled rounds. */
  method Rounds0To19(a0: word, b0: word, c0: word, d0: word, e0: word, block: array<word>, ghost h: Regs,
                     ghost m: seq<byte>)
    returns (a: word, b: word, c: word, d: word, e: word)
    requires block.Length == 16 && At(0, Regs(a0, b0, c0, d0, e0), block[..], h, m)
    modifies block
    ensures At(20, Regs(a, b, c, d, e), block[..], h, m)
  {
    hide At;
    a, b, c, d, e := a0, b0, c0, d0, e0;
    e, b := R0(a, b, c, d, e, block, 0, h, m); d, a := R0(e, a, b, c, d, block, 1, h, m);
    c, e := R0(d, e, a, b, c, block, 2, h, m); b, d := R0(c, d, e, a, b, block, 3, h, m);
    a, c := R0(b, c, d, e, a, block, 4, h, m); e, b := R0(a, b, c, d, e, block, 5, h, m);
    d, a := R0(e, a, b, c, d, block, 6, h, m); c, e := R0(d, e, a, b, c, block, 7, h, m);
    b, d := R0(c, d, e, a, b, block, 8, h, m); a, c := R0(b, c, d, e, a, block, 9, h, m);
    e, b := R0(a, b, c, d, e, block, 10, h, m); d, a := R0(e, a, b, c, d, block, 11, h, m);
    c, e := R0(d, e, a, b, c, block, 12, h, m); b, d := R0(c, d, e, a, b, block, 13, h, m);
    a, c := R0(b, c, d, e, a, block, 14, h, m); e, b := R0(a, b, c, d, e, block, 15, h, m);
    d, a := R1(e, a, b, c, d, block, 16, h, m); c, e := R1(d, e, a, b, c, block, 17, h, m);
    b, d := R1(c, d, e, a, b, block, 18, h, m); a, c := R1(b, c, d, e, a, block, 19, h, m);
  }

  /** Rounds 20 to 39. */
  method Rounds20To39(a0: word, b0: word, c0: word, d0: word, e0: word, block: array<word>, ghost h: Regs,
                      ghost m: seq<byte>)
    returns (a: word, b: word, c: word, d: word, e: word)
    requires block.Length == 16 && At(20, Regs(a0, b0, c0, d0, e0), block[..], h, m)
    modifies block
    ensures At(40, Regs(a, b, c, d, e), block[..], h, m)
  {
    hide At;
    a, b, c, d, e := a0, b0, c0, d0, e0;
    e, b := R2(a, b, c, d, e, block, 20, h, m); d, a := R2(e, a, b, c, d, block, 21, h, m);
    c, e := R2(d, e, a, b, c, block, 22, h, m); b, d := R2(c, d, e, a, b, block, 23, h, m);
    a, c := R2(b, c, d, e, a, block, 24, h, m); e, b := R2(a, b, c, d, e, block, 25, h, m);
    d, a := R2(e, a, b, c, d, block, 26, h, m); c, e := R2(d, e, a, b, c, block, 27, h, m);
    b, d := R2(c, d, e, a, b, block, 28, h, m); a, c := R2(b, c, d, e, a, block, 29, h, m);
    e, b := R2(a, b, c, d, e, block, 30, h, m); d, a := R2(e, a, b, c, d, block, 31, h, m);
    c, e := R2(d, e, a, b, c, block, 32, h, m); b, d := R2(c, d, e, a, b, block, 33, h, m);
    a, c := R2(b, c, d, e, a, block, 34, h, m); e, b := R2(a, b, c, d, e, block, 35, h, m);
    d, a := R2(e, a, b, c, d, block, 36, h, m); c, e := R2(d, e, a, b, c, block, 37, h, m);
    b, d := R2(c, d, e, a, b, block, 38, h, m); a, c := R2(b, c, d, e, a, block, 39, h, m);
  }

  /** Rounds 40 to 59. */
  method Rounds40To59(a0: word, b0: word, c0: word, d0: word, e0: word, block: array<word>, ghost h: Regs,
                      ghost m: seq<byte>)
    returns (a: word, b: word, c: word, d: word, e: word)
    requires block.Length == 16 && At(40, Regs(a0, b0, c0, d0, e0), block[..], h, m)
    modifies block
    ensures At(60, Regs(a, b, c, d, e), block[..], h, m)
  {
    hide At;
    a, b, c, d, e := a0, b0, c0, d0, e0;
    e, b := R3(a, b, c, d, e, block, 40, h, m); d, a := R3(e, a, b, c, d, block, 41, h, m);
    c, e := R3(d, e, a, b, c, block, 42, h, m); b, d := R3(c, d, e, a, b, block, 43, h, m);
    a, c := R3(b, c, d, e, a, block, 44, h, m); e, b := R3(a, b, c, d, e, block, 45, h, m);
    d, a := R3(e, a, b, c, d, block, 46, h, m); c, e := R3(d, e, a, b, c, block, 47, h, m);
    b, d := R3(c, d, e, a, b, block, 48, h, m); a, c := R3(b, c, d, e, a, block, 49, h, m);
    e, b := R3(a, b, c, d, e, block, 50, h, m); d, a := R3(e, a, b, c, d, block, 51, h, m);
    c, e := R3(d, e, a, b, c, block, 52, h, m); b, d := R3(c, d, e, a, b, block, 53, h, m);
    a, c := R3(b, c, d, e, a, block, 54, h, m); e, b := R3(a, b, c, d, e, block, 55, h, m);
    d, a := R3(e, a, b, c, d, block, 56, h, m); c, e := R3(d, e, a, b, c, block, 57, h, m);
    b, d := R3(c, d, e, a, b, block, 58, h, m); a, c := R3(b, c, d, e, a, block, 59, h, m);
  }

  /** Rounds 60 to 79. */
  method Rounds60To79(a0: word, b0: word, c0: word, d0: word, e0: word, block: array<word>, ghost h: Regs,
                      ghost m: seq<byte>)
    returns (a: word, b: word, c: word, d: word, e: word)
    requires block.Length == 16 && At(60, Regs(a0, b0, c0, d0, e0), block[..], h, m)
    modifies block
    ensures At(80, Regs(a, b, c, d, e), block[..], h, m)
  {
    hide At;
    a, b, c, d, e := a0, b0, c0, d0, e0;
    e, b := R4(a, b, c, d, e, block, 60, h, m); d, a := R4(e, a, b, c, d, block, 61, h, m);
    c, e := R4(d, e, a, b, c, block, 62, h, m); b, d := R4(c, d, e, a, b, block, 63, h, m);
    a, c := R4(b, c, d, e, a, block, 64, h, m); e, b := R4(a, b, c, d, e, block, 65, h, m);
    d, a := R4(e, a, b, c, d, block, 66, h, m); c, e := R4(d, e, a, b, c, block, 67, h, m);
    b, d := R4(c, d, e, a, b, block, 68, h, m); a, c := R4(b, c, d, e, a, block, 69, h, m);
    e, b := R4(a, b, c, d, e, block, 70, h, m); d, a := R4(e, a, b, c, d, block, 71, h, m);
    c, e := R4(d, e, a, b, c, block, 72, h, m); b, d := R4(c, d, e, a, b, block, 73, h, m);
    a, c := R4(b, c, d, e, a, block, 74, h, m); e, b := R4(a, b, c, d, e, block, 75, h, m);
    d, a := R4(e, a, b, c, d, block, 76, h, m); c, e := R4(d, e, a, b, c, block, 77, h, m);
    b, d := R4(c, d, e, a, b, block, 78, h, m); a, c := R4(b, c, d, e, a, block, 79, h, m);
  }

  /** sha1Transform: hashes one 64-byte block into the state, on a private copy of the block. */
  method Transform(state: array<word>, m: seq<byte>)
    requires state.Length == 5 && |m| == 64
    modifies state
    ensures StateRegs(state[..]) == Compress(StateRegs(old(state[..])), m)
  {
    hide Add, At, Rounds, Schedule;
    ghost var h := StateRegs(state[..]);
    var block := new word[16](i requires 0 <= i < 16 => LoadLE(m, i));
    var a, b, c, d, e := state[0], state[1], state[2], state[3], state[4];
    Start(h, block[..], m);
    a, b, c, d, e := Rounds0To19(a, b, c, d, e, block, h, m);
    a, b, c, d, e := Rounds20To39(a, b, c, d, e, block, h, m);
    a, b, c, d, e := Rounds40To59(a, b, c, d, e, block, h, m);
    a, b, c, d, e := Rounds60To79(a, b, c, d, e, block, h, m);
    Finish(Regs(a, b, c, d, e), block[..], h, m);
    state[0] := Add(state[0], a);
    state[1] := Add(state[1], b);
    state[2] := Add(state[2], c);
    state[3] := Add(state[3], d);
    state[4] := Add(state[4], e);
  }

  function StateRegs(s: seq<word>): Regs
    requires |s| == 5
  {
    Regs(s[0], s[1], s[2], s[3], s[4])
  }
}
