/** TcgTokenVO of include/jcu-dparm/tcg/tcg_token.h: one token of a response and its typed readings. */
module TcgToken {
  import opened DparmTypes
  import opened TcgTypes

  /** The encodings a first byte announces. */
  datatype Kind = Tiny | Short | Medium | Long | Control

  function KindOf(first: uint8): (k: Kind)
    ensures k == if first < 0x80 then Tiny else if first < 0xc0 then Short else if first < 0xe0 then Medium
                 else if first < 0xf0 then Long else Control
  {
    if !Bit(first, 0x80) then Tiny
    else if !Bit(first, 0x40) then Short
    else if !Bit(first, 0x20) then Medium
    else if !Bit(first, 0x10) then Long
    else Control
  }

  /** Where the contents of an atom start. */
  function ContentOffset(k: Kind): nat {
    match k
    case Tiny => 0
    case Short => 1
    case Medium => 2
    case Long => 4
    case Control => 0
  }

  datatype Token = Token(buf: seq<uint8>) {
    /** A token that commit cuts from a payload is long enough for its header. */
    predicate Framed() {
      |buf| >= 1 && |buf| >= ContentOffset(KindOf(buf[0]))
    }

    function Type(): uint8
      requires |buf| >= 1
    {
      var b := buf[0];
      match KindOf(b)
      case Tiny => if Bit(b, 0x40) then TOKENID_SINT else TOKENID_UINT
      case Short => if Bit(b, 0x20) then TOKENID_BYTESTRING else if Bit(b, 0x10) then TOKENID_SINT else TOKENID_UINT
      case Medium => if Bit(b, 0x10) then TOKENID_BYTESTRING else if Bit(b, 0x08) then TOKENID_SINT else TOKENID_UINT
      case Long => if Bit(b, 0x02) then TOKENID_BYTESTRING else if Bit(b, 0x01) then TOKENID_SINT else TOKENID_UINT
      case Control => b
    }

    /** Whether getUint64 yields a number: the sign bit is looked at, the byte-string bit is not. */
    predicate ReadsAsNumber()
      requires |buf| >= 1
    {
      match KindOf(buf[0])
      case Tiny => !Bit(buf[0], 0x40)
      case Short => !Bit(buf[0], 0x10)
      case _ => false
    }

    /** The number of a token that reads as one: the low six bits, or the big-endian contents. */
    function Number(): nat
      requires |buf| >= 1 && ReadsAsNumber()
    {
      if KindOf(buf[0]).Tiny? then buf[0] % 64 else NatOfBE(buf[1..])
    }

    /** getBytes, and getString with bytes for characters. */
    function GetBytes(): DparmReturn<seq<uint8>>
      requires Framed()
    {
      match KindOf(buf[0])
      case Tiny => DparmReturn(DparmResult(ILLEGAL_DATA, 0, 0), [])
      case Control => DparmReturn(DparmResult(OK, 0, 2), [])
      case k => DparmReturn(DparmResult(OK, 0, 0), buf[ContentOffset(k)..])
    }

    /**
     * getUint64. Beyond eight content bytes the source shifts a 64-bit value by 64 or more, which has no defined
     * result: such a token still reads as OK, with an arbitrary value.
     */
    method GetUint64() returns (r: DparmReturn<uint64>)
      requires |buf| >= 1
      ensures r.IsOk() <==> ReadsAsNumber()
      ensures !r.IsOk() ==> r == DparmReturn(DparmResult(ILLEGAL_DATA, 0, 0), 0)
      ensures r.IsOk() ==> r.result == DparmResult(OK, 0, 0)
      ensures r.IsOk() && |buf| <= 9 ==> r.value == Number()
    {
      match KindOf(buf[0]) {
        case Tiny =>
          if Bit(buf[0], 0x40) {
            return DparmReturn(DparmResult(ILLEGAL_DATA, 0, 0), 0);
          }
          return DparmReturn(DparmResult(OK, 0, 0), buf[0] % 64);
        case Short =>
          if Bit(buf[0], 0x10) {
            return DparmReturn(DparmResult(ILLEGAL_DATA, 0, 0), 0);
          }
          var whatever: uint64 := 0;
          var b := 0;
          var i := |buf| - 1;
          while i > 0
            invariant 0 <= i && b == |buf| - 1 - i
            invariant b <= 8 ==> whatever == NatOfBE(buf[i + 1..])
          {
            whatever := OrShifted(whatever, buf, i, b);
            b := b + 1;
            i := i - 1;
          }
          return DparmReturn(DparmResult(OK, 0, 0), whatever);
        case _ =>
          return DparmReturn(DparmResult(ILLEGAL_DATA, 0, 0), 0);
      }
    }

    /** whatever |= buf[i] << (8 * b): the bits are disjoint, so it is a sum; from b = 8 on it is undefined. */
    method OrShifted(whatever: uint64, s: seq<uint8>, i: nat, b: nat) returns (r: uint64)
      requires i + b + 1 == |s|
      requires b <= 8 ==> whatever == NatOfBE(s[i + 1..])
      ensures b < 8 ==> r == NatOfBE(s[i..])
    {
      if b < 8 {
        NatOfBECons(s[i], s[i + 1..]);
        assert [s[i]] + s[i + 1..] == s[i..];
        NatOfBEBound(s[i..]);
        Pow256Grows(b + 1, 8);
        r := whatever + s[i] * Pow256(b);
      } else {
        var undefined: int := *;
        r := if 0 <= undefined < 0x1_0000_0000_0000_0000 then undefined else 0;
      }
    }

    method GetUint32() returns (r: DparmReturn<uint32>)
      requires |buf| >= 1
      ensures r.IsOk() <==> ReadsAsNumber()
      ensures !r.IsOk() ==> r.result == DparmResult(ILLEGAL_DATA, 0, 0)
      ensures r.IsOk() && |buf| <= 9 ==>
        r == DparmReturn(DparmResult(OK, 0, if Number() > 0xffff_ffff then 1 else 0), Number() % 0x1_0000_0000)
    {
      var dres := GetUint64();
      if !dres.IsOk() {
        return DparmReturn(dres.result, dres.value % 0x1_0000_0000);
      }
      if dres.value > 0xffff_ffff {
        return DparmReturn(DparmResult(OK, 0, 1), dres.value % 0x1_0000_0000);
      }
      return DparmReturn(DparmResult(OK, 0, 0), dres.value % 0x1_0000_0000);
    }

    method GetUint8() returns (r: DparmReturn<uint8>)
      requires |buf| >= 1
      ensures r.IsOk() <==> ReadsAsNumber()
      ensures !r.IsOk() ==> r.result == DparmResult(ILLEGAL_DATA, 0, 0)
      ensures r.IsOk() && |buf| <= 9 ==>
        r == DparmReturn(DparmResult(OK, 0, if Number() > 0xff then 1 else 0), Number() % 0x100)
    {
      var dres := GetUint64();
      if !dres.IsOk() {
        return DparmReturn(dres.result, dres.value % 0x100);
      }
      if dres.value > 0xff {
        return DparmReturn(DparmResult(OK, 0, 1), dres.value % 0x100);
      }
      return DparmReturn(DparmResult(OK, 0, 0), dres.value % 0x100);
    }
  }

  /** What the first byte says about the type of a token, range by range. */
  lemma TypeRanges(t: Token)
    requires |t.buf| >= 1
    ensures var b := t.buf[0];
            t.Type() == if b >= 0xf0 then b
                        else if 0xa0 <= b < 0xc0 || 0xd0 <= b < 0xe0 || (b >= 0xe0 && b % 4 >= 2) then 0xe0
                        else if 0x40 <= b < 0x80 || 0x90 <= b < 0xa0 || 0xc8 <= b < 0xd0 || (b >= 0xe0 && b % 4 == 1)
                        then 0xe1
                        else 0xe2
  {
    var b := t.buf[0];
    if b >= 0xe0 {
      LowBits(b);
    }
  }

  lemma LowBits(b: uint8)
    ensures (Bit(b, 0x02) <==> b % 4 >= 2) && (!Bit(b, 0x02) ==> (Bit(b, 0x01) <==> b % 4 == 1))
  {}

  /** Bytes are read behind a header of one, two or four bytes; a tiny atom has none and a control token reads empty. */
  lemma BytesRanges(t: Token)
    requires t.Framed()
    ensures var b := t.buf[0];
            t.GetBytes() == if b < 0x80 then DparmReturn(DparmResult(ILLEGAL_DATA, 0, 0), [])
                            else if b >= 0xf0 then DparmReturn(DparmResult(OK, 0, 2), [])
                            else DparmReturn(DparmResult(OK, 0, 0),
                                             t.buf[if b < 0xc0 then 1 else if b < 0xe0 then 2 else 4..])
  {
    hide Bit;
  }

  /** The first byte of a byte string of up to 15 bytes whose bit for signed atoms is clear. */
  predicate PassesForNumber(first: uint8) {
    KindOf(first).Short? && Bit(first, 0x20) && !Bit(first, 0x10)
  }

  /** The first byte of an unsigned number with a medium or long header. */
  predicate PassesForNothing(first: uint8) {
    (KindOf(first).Medium? || KindOf(first).Long?) && Token([first]).Type() == TOKENID_UINT
  }

  /**
   * getUint64 reads exactly the tokens of type UINT as numbers, but for byte strings with a short header, which it
   * reads too, and numbers with a medium or long header, which it does not.
   */
  lemma ReadsNumbersIff(t: Token)
    requires |t.buf| >= 1
    ensures (t.ReadsAsNumber() <==> t.Type() == TOKENID_UINT)
       <==> !PassesForNumber(t.buf[0]) && !PassesForNothing(t.buf[0])
  {
    hide KindOf, Bit;
    assert Token([t.buf[0]]).buf[0] == t.buf[0];
  }

  /** The empty byte string is read as the number zero. */
  lemma EmptyStringReadsAsNumber()
    ensures var t := Token([0xa1, 0x00]);
            t.Type() == TOKENID_BYTESTRING && t.ReadsAsNumber() && t.Number() == 0
  {
    assert [0xa1, 0x00][1..] == [0];
    assert [0][..0] == [];
  }

  lemma {:induction false} Pow256Grows(a: nat, b: nat)
    requires a <= b
    ensures Pow256(a) <= Pow256(b)
    decreases b
  {
    if a < b {
      Pow256Grows(a, b - 1);
    }
  }
}
