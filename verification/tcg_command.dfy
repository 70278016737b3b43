/** TcgCommandImpl of src/tcg/tcg_command_impl.cc: a bounded packet builder that back-patches its headers. */
module TcgCommand {
  import opened DparmTypes
  import opened TcgTypes
  import opened TcgCodec

  /** The end-of-data tail that complete(true) appends. */
  const TAIL: seq<uint8> := [ENDOFDATA, STARTLIST, 0x00, 0x00, 0x00, ENDLIST]

  /** The bytes addNumberToken writes with that much room: on failure a lone atom header may remain. */
  function NumberWritten(room: nat, v: uint64): (w: seq<uint8>)
    ensures |w| <= room
    ensures |EncodeNumber(v)| <= room ==> w == EncodeNumber(v)
  {
    if |EncodeNumber(v)| <= room then EncodeNumber(v)
    else if room >= 1 then [EncodeNumber(v)[0]]
    else []
  }

  /** A number of 64 and more with room for its header: the whole atom if the rest fits, else the header alone. */
  lemma WideNumber(room: nat, v: uint64, header: uint8, startAt: nat)
    requires v >= 64 && room >= 1
    requires header == 0x80 + startAt + 1 && NumberWidth(v) == startAt + 1
    ensures EncodeNumber(v) == [header] + BEBytes(v, startAt + 1)
    ensures NumberWritten(room, v) == if startAt + 2 <= room then EncodeNumber(v) else [header]
  {
    hide BEBytes;
  }

  lemma UidWidth(uid: seq<uint8>)
    requires |uid| == 8
    ensures |EncodeBytes(uid)| == 9
  {}

  /** The bytes of an all-or-nothing write. */
  function Fitting(room: nat, bytes: seq<uint8>): (w: seq<uint8>)
    ensures |w| <= room
  {
    if |bytes| <= room then bytes else []
  }

  /** How many zero bytes align n to four. */
  function AlignPad(n: nat): (k: nat)
    ensures k < 4 && (n + k) % 4 == 0
  {
    (4 - n % 4) % 4
  }

  /** Short of the padding the end is unaligned and has room; with it the end is aligned. */
  lemma PadProgress(n: nat, pad: nat)
    requires pad <= AlignPad(n)
    ensures (HEADER_SIZE + n + pad) % 4 != 0 <==> pad < AlignPad(n)
    ensures pad < AlignPad(n) && HEADER_SIZE + n + pad <= MAX_BUFFER_LENGTH ==>
      HEADER_SIZE + n + pad < MAX_BUFFER_LENGTH
  {
    var a := AlignPad(n) - pad;
    assert (n + pad + a) % 4 == 0 && a < 4;
  }

  function Zeros(n: nat): (z: seq<uint8>)
    ensures |z| == n && forall k :: 0 <= k < n ==> z[k] == 0
  {
    seq<uint8>(n, _ => 0)
  }

  /** The least multiple of 512 that covers n bytes. */
  function SectorCover(n: nat): (size: nat)
    ensures size % 512 == 0 && n <= size < n + 512
  {
    (n + 511) / 512 * 512
  }

  /** A header with four bytes replaced. */
  function Patched(h: seq<uint8>, at: nat, bytes: seq<uint8>): (r: seq<uint8>)
    requires |h| == HEADER_SIZE && |bytes| == 4 && at + 4 <= HEADER_SIZE
    ensures |r| == HEADER_SIZE && r[at..at + 4] == bytes
    ensures forall k :: 0 <= k < HEADER_SIZE && (k < at || at + 4 <= k) ==> r[k] == h[k]
  {
    h[..at] + bytes + h[at + 4..]
  }

  /** The three big-endian lengths of a packet with n payload bytes and its alignment. */
  function Stamped(h: seq<uint8>, n: nat): (r: seq<uint8>)
    requires |h| == HEADER_SIZE && HEADER_SIZE + n <= MAX_BUFFER_LENGTH
    ensures |r| == HEADER_SIZE
  {
    var aligned := HEADER_SIZE + n + AlignPad(n);
    var h1 := Patched(h, AT_SUBPACKET_LENGTH, BE32(n));
    var h2 := Patched(h1, AT_PACKET_LENGTH, BE32(aligned - COM_PACKET_SIZE - PACKET_SIZE));
    Patched(h2, AT_COM_LENGTH, BE32(aligned - COM_PACKET_SIZE))
  }

  lemma StampedFields(h: seq<uint8>, n: nat)
    requires |h| == HEADER_SIZE && HEADER_SIZE + n <= MAX_BUFFER_LENGTH
    ensures var aligned := HEADER_SIZE + n + AlignPad(n);
            var r := Stamped(h, n);
            && r[AT_SUBPACKET_LENGTH..AT_SUBPACKET_LENGTH + 4] == BE32(n)
            && r[AT_PACKET_LENGTH..AT_PACKET_LENGTH + 4] == BE32(aligned - COM_PACKET_SIZE - PACKET_SIZE)
            && r[AT_COM_LENGTH..AT_COM_LENGTH + 4] == BE32(aligned - COM_PACKET_SIZE)
  {
    hide Patched, BE32, AlignPad;
  }

  /** The length a header stores at an offset, as a receiver decodes it. */
  function LengthAt(h: seq<uint8>, at: nat): nat
    requires at + 4 <= |h|
  {
    FromBE32(h[at..at + 4])
  }

  /** The lengths delimit nested regions: the data ends at its last byte, both packets at the aligned end. */
  lemma LengthsNest(h: seq<uint8>, n: nat)
    requires |h| == HEADER_SIZE && HEADER_SIZE + n <= MAX_BUFFER_LENGTH
    ensures var r := Stamped(h, n);
            && 56 + FromBE32(r[52..56]) == 56 + n
            && 44 + FromBE32(r[40..44]) == 56 + n + AlignPad(n)
            && 20 + FromBE32(r[16..20]) == 56 + n + AlignPad(n)
            && (56 + n + AlignPad(n)) % 4 == 0 && 56 + n + AlignPad(n) <= 61440
  {
    hide Patched, BE32, FromBE32, Stamped;
    var aligned := HEADER_SIZE + n + AlignPad(n);
    StampedFields(h, n);
    BE32RoundTrip(n);
    BE32RoundTrip(aligned - COM_PACKET_SIZE - PACKET_SIZE);
    BE32RoundTrip(aligned - COM_PACKET_SIZE);
  }

  /** strlen. */
  function StrLen(text: seq<uint8>): (n: nat)
    requires 0 in text
    ensures n < |text| && text[n] == 0 && 0 !in text[..n]
  {
    if text[0] == 0 then 0 else
      var n := StrLen(text[1..]);
      assert text[..n + 1] == [text[0]] + text[1..][..n];
      n + 1
  }

  /** The bytes that a text and a length stand for: a negative length asks for the terminated string. */
  function Given(text: seq<uint8>, length: int): (s: seq<uint8>)
    requires length <= |text| && (length < 0 ==> 0 in text)
    ensures s <= text && (length >= 0 ==> |s| == length) && (length < 0 ==> 0 !in s && text[|s|] == 0)
    ensures length == |text| ==> s == text
  {
    if length < 0 then text[..StrLen(text)] else text[..length]
  }

  lemma StringCases(data: seq<uint8>)
    ensures |data| == 0 ==> EncodeBytes(data) == [0xa1, 0x00]
    ensures 0 < |data| < 16 ==> EncodeBytes(data) == [0xa0 + |data|] + data
    ensures 16 <= |data| < 2048 ==> EncodeBytes(data) == [0xd0 + |data| / 256 % 8, |data| % 256] + data
    ensures |data| >= 2048 ==> EncodeBytes(data) == []
  {}

  class TcgCommandImpl {
    const buf: array<uint8>
    var pos: nat

    ghost predicate Valid()
      reads this, buf
    {
      && buf.Length == MAX_BUFFER_LENGTH
      && HEADER_SIZE <= pos <= MAX_BUFFER_LENGTH
      && (forall k :: pos <= k < MAX_BUFFER_LENGTH ==> buf[k] == 0)
    }

    ghost function Header(): (h: seq<uint8>)
      reads this, buf
      requires Valid()
      ensures |h| == HEADER_SIZE
    {
      buf[..HEADER_SIZE]
    }

    ghost function Payload(): seq<uint8>
      reads this, buf
      requires Valid()
    {
      buf[HEADER_SIZE..pos]
    }

    /** The bytes that go out: header, payload and zeros up to whole sectors. */
    ghost function Packet(): (s: seq<uint8>)
      reads this, buf
      requires Valid()
      ensures |s| >= HEADER_SIZE
    {
      Header() + Payload() + Zeros(SectorCover(pos) - pos)
    }

    ghost function Room(): nat
      reads this, buf
      requires Valid()
    {
      MAX_BUFFER_LENGTH - pos
    }

    constructor ()
      ensures Valid() && fresh(buf)
      ensures Header() == Zeros(HEADER_SIZE) && Payload() == []
    {
      buf := new uint8[MAX_BUFFER_LENGTH](_ => 0);
      pos := HEADER_SIZE;
      new;
    }

    method Reset()
      requires Valid()
      modifies this, buf
      ensures Valid() && Header() == Zeros(HEADER_SIZE) && Payload() == []
    {
      forall k | 0 <= k < buf.Length {
        buf[k] := 0;
      }
      pos := HEADER_SIZE;
    }

    /** Writes bytes at the cursor; the callers have checked the room. */
    method Put(bytes: seq<uint8>)
      requires Valid() && |bytes| <= Room()
      modifies this, buf
      ensures Valid() && Header() == old(Header()) && Payload() == old(Payload()) + bytes
      ensures Room() == old(Room()) - |bytes|
    {
      forall k | 0 <= k < |bytes| {
        buf[pos + k] := bytes[k];
      }
      pos := pos + |bytes|;
    }

    method CheckCmdBufWrite(needSize: nat) returns (fits: bool)
      requires Valid()
      ensures fits == (needSize <= Room())
    {
      fits := MAX_BUFFER_LENGTH - pos >= needSize;
    }

    method AddByteToken(data: uint8) returns (ok: bool)
      requires Valid()
      modifies this, buf
      ensures Valid() && Header() == old(Header())
      ensures ok == (1 <= old(Room())) && Payload() == old(Payload()) + Fitting(old(Room()), [data])
    {
      ok := CheckCmdBufWrite(1);
      if ok {
        Put([data]);
      }
    }

    method AddRawToken(data: seq<uint8>) returns (ok: bool)
      requires Valid()
      modifies this, buf
      ensures Valid() && Header() == old(Header())
      ensures ok == (|data| <= old(Room())) && Payload() == old(Payload()) + Fitting(old(Room()), data)
    {
      ok := CheckCmdBufWrite(|data|);
      if ok {
        Put(data);
      }
    }

    /** text is the memory behind the pointer. Always returns false, whether or not it wrote the string. */
    method AddStringToken(text: seq<uint8>, length: int) returns (ok: bool)
      requires Valid() && length <= |text| && (length < 0 ==> 0 in text)
      modifies this, buf
      ensures Valid() && Header() == old(Header())
      ensures !ok && Payload() == old(Payload()) + Fitting(old(Room()), EncodeBytes(Given(text, length)))
    {
      hide Valid, Payload, Header, Room;
      ok := AddString(text, if length < 0 then StrLen(text) else length);
    }

    /** The rest of addStringToken, once the length is known. */
    method AddString(text: seq<uint8>, length: nat) returns (ok: bool)
      requires Valid() && length <= |text|
      modifies this, buf
      ensures Valid() && Header() == old(Header())
      ensures !ok && Payload() == old(Payload()) + Fitting(old(Room()), EncodeBytes(text[..length]))
    {
      hide Valid, Payload, Header, Room, EncodeBytes;
      StringCases(text[..length]);
      if length == 0 {
        var fits := CheckCmdBufWrite(2);
        if fits {
          Put([0xa1, 0x00]);
        }
      } else if length < 16 {
        var fits := CheckCmdBufWrite(1 + length);
        if fits {
          PutAtom([0xa0 + length], text[..length]);
        }
      } else if length < 2048 {
        var fits := CheckCmdBufWrite(2 + length);
        if fits {
          PutAtom([0xd0 + length / 256 % 8, length % 256], text[..length]);
        }
      }
      ok := false;
    }

    /** Atom header bytes, then a memcpy of the contents. */
    method PutAtom(header: seq<uint8>, text: seq<uint8>)
      requires Valid() && |header| + |text| <= Room()
      modifies this, buf
      ensures Valid() && Header() == old(Header()) && Payload() == old(Payload()) + (header + text)
    {
      hide Valid, Payload, Header, Room;
      Put(header);
      Put(text);
      assert old(Payload()) + header + text == old(Payload()) + (header + text);
    }

    method AddNumberToken(value: uint64) returns (ok: bool)
      requires Valid()
      modifies this, buf
      ensures Valid() && Header() == old(Header())
      ensures ok == (|EncodeNumber(value)| <= old(Room()))
      ensures Payload() == old(Payload()) + NumberWritten(old(Room()), value)
    {
      hide Valid, Payload, Header, Room;
      ok := CheckCmdBufWrite(1);
      if !ok {
        return;
      }
      if value < 64 {
        Put([value % 64]);
        return;
      }
      ok := AddWideNumber(value);
    }

    /** The branch for 64 and more: an atom header of 1, 2, 4 or 8 bytes, then the bytes if they fit too. */
    method AddWideNumber(value: uint64) returns (ok: bool)
      requires Valid() && value >= 64 && 1 <= Room()
      modifies this, buf
      ensures Valid() && Header() == old(Header())
      ensures ok == (|EncodeNumber(value)| <= old(Room()))
      ensures Payload() == old(Payload()) + NumberWritten(old(Room()), value)
    {
      hide Valid, Payload, Header, Room, EncodeNumber, NumberWritten;
      var header, startAt := 0x81, 0;
      if value < 0x100 {
      } else if value < 0x1_0000 {
        header, startAt := 0x82, 1;
      } else if value < 0x1_0000_0000 {
        header, startAt := 0x84, 3;
      } else {
        header, startAt := 0x88, 7;
      }
      WideNumber(Room(), value, header, startAt);
      Put([header]);
      ok := CheckCmdBufWrite(startAt + 1);
      if ok {
        ghost var bytes := BEBytes(value, startAt + 1);
        assert old(Payload()) + [header] + bytes == old(Payload()) + ([header] + bytes);
        PutNumber(value, startAt);
      }
    }

    /** Emits bytes startAt down to 0 of the value. */
    method PutNumber(value: uint64, startAt: nat)
      requires Valid() && startAt + 1 <= Room()
      modifies this, buf
      ensures Valid() && Header() == old(Header())
      ensures Payload() == old(Payload()) + BEBytes(value, startAt + 1)
    {
      hide Valid, Payload, Header, Room;
      var i := startAt + 1;
      while i > 0
        invariant 0 <= i <= startAt + 1
        invariant Valid() && Header() == old(Header()) && i <= Room()
        invariant Payload() + BEBytes(value, i) == old(Payload()) + BEBytes(value, startAt + 1)
      {
        i := i - 1;
        LeadingByte(value, i);
        ghost var b := [Shr8(value, i) % 256];
        assert Payload() + (b + BEBytes(value, i)) == (Payload() + b) + BEBytes(value, i);
        Put([Shr8(value, i) % 256]);
      }
    }

    /** Stores four header bytes. */
    method StoreHeader(at: nat, bytes: seq<uint8>)
      requires Valid() && |bytes| == 4 && at + 4 <= HEADER_SIZE
      modifies buf
      ensures Valid() && Payload() == old(Payload())
      ensures Header() == Patched(old(Header()), at, bytes)
    {
      buf[at] := bytes[0];
      buf[at + 1] := bytes[1];
      buf[at + 2] := bytes[2];
      buf[at + 3] := bytes[3];
    }

    /** header->field = SWAP32(v). */
    method StoreSwap32(at: nat, v: uint32)
      requires Valid() && at + 4 <= HEADER_SIZE
      modifies buf
      ensures Valid() && Payload() == old(Payload())
      ensures Header() == Patched(old(Header()), at, BE32(v))
    {
      hide LE32, BE32, Swap32;
      StoreSwapped(v);
      StoreHeader(at, LE32(Swap32(v)));
    }

    method Complete(eod: bool) returns (ok: bool)
      requires Valid()
      modifies this, buf
      ensures Valid() && ok == (!eod || |TAIL| <= old(Room()))
      ensures !ok ==> Header() == old(Header()) && Payload() == old(Payload())
      ensures ok ==>
        var body := old(Payload()) + if eod then TAIL else [];
        Payload() == body + Zeros(AlignPad(|body|)) && Header() == Stamped(old(Header()), |body|)
    {
      hide Valid, Header, Payload, Room, BE32, AlignPad, Patched;
      ok := true;
      if eod {
        ok := CheckCmdBufWrite(6);
        if !ok {
          return;
        }
        Put(TAIL);
      }
      ghost var body := Payload();
      PosFromPayload();
      StoreSwap32(AT_SUBPACKET_LENGTH, pos - HEADER_SIZE);
      AlignToFour();
      PosFromPayload();
      StoreSwap32(AT_PACKET_LENGTH, pos - COM_PACKET_SIZE - PACKET_SIZE);
      StoreSwap32(AT_COM_LENGTH, pos - COM_PACKET_SIZE);
    }

    /** Zero bytes up to a multiple of four; the buffer size is one, so there is always room. */
    method AlignToFour()
      requires Valid()
      modifies this, buf
      ensures Valid() && Header() == old(Header())
      ensures Payload() == old(Payload()) + Zeros(AlignPad(|old(Payload())|))
    {
      hide Valid, Header, Payload, Room, AlignPad;
      ghost var body, pad := Payload(), 0;
      PosFromPayload();
      PadProgress(|body|, 0);
      assert Payload() == body + Zeros(0);
      while pos % 4 != 0
        invariant pad <= AlignPad(|body|) && pos == HEADER_SIZE + |body| + pad
        invariant Valid() && Payload() == body + Zeros(pad) && Header() == old(Header())
        invariant pos % 4 != 0 <==> pad < AlignPad(|body|)
        decreases AlignPad(|body|) - pad
      {
        PosFromPayload();
        PadProgress(|body|, pad);
        var fits := CheckCmdBufWrite(1);
        if !fits {
          assert false;
        }
        Put([0x00]);
        pad := pad + 1;
        assert Zeros(pad - 1) + [0x00] == Zeros(pad);
        PosFromPayload();
        PadProgress(|body|, pad);
      }
    }

    lemma PosFromPayload()
      requires Valid()
      ensures pos == HEADER_SIZE + |Payload()| && pos + Room() == MAX_BUFFER_LENGTH
    {}

    method SetComId(comId: uint16)
      requires Valid()
      modifies buf
      ensures Valid() && Payload() == old(Payload())
      ensures Header() == Patched(old(Header()), AT_COM_ID, [comId / 256, comId % 256, 0, 0])
    {
      StoreHeader(AT_COM_ID, [comId / 256, comId % 256, 0, 0]);
    }

    method SetTSN(tsn: uint32)
      requires Valid()
      modifies buf
      ensures Valid() && Payload() == old(Payload())
      ensures Header() == Patched(old(Header()), AT_TSN, LE32(tsn))
    {
      StoreHeader(AT_TSN, LE32(tsn));
    }

    method SetHSN(hsn: uint32)
      requires Valid()
      modifies buf
      ensures Valid() && Payload() == old(Payload())
      ensures Header() == Patched(old(Header()), AT_HSN, LE32(hsn))
    {
      StoreHeader(AT_HSN, LE32(hsn));
    }

    /** What is sent: the packet rounded up to whole sectors, zero-filled. */
    method GetCmdSize() returns (size: nat)
      requires Valid()
      ensures size == SectorCover(pos) && size <= MAX_BUFFER_LENGTH == buf.Length
    {
      var x := pos % 512;
      size := if x != 0 then (512 - x) + pos else pos;
    }

    lemma PacketIsPrefix(size: nat)
      requires Valid() && size == SectorCover(pos) && size <= MAX_BUFFER_LENGTH
      ensures buf[..size] == Packet()
    {
      hide SectorCover;
    }

    /** reset(uid, method) with an encoded invoking object. */
    method ResetRaw(invokingUid: seq<uint8>, methodUid: seq<uint8>)
      requires Valid() && |methodUid| == 8
      modifies this, buf
      ensures Valid() && Header() == Zeros(HEADER_SIZE)
      ensures var uid := Fitting(MAX_BUFFER_LENGTH - HEADER_SIZE - 1, invokingUid);
              Payload() == [CALL] + uid + Fitting(MAX_BUFFER_LENGTH - HEADER_SIZE - 1 - |uid|, EncodeBytes(methodUid))
    {
      hide Valid, Header, Payload, Room, EncodeBytes;
      Reset();
      PosFromPayload();
      Put([CALL]);
      PosFromPayload();
      var ok := AddRawToken(invokingUid);
      PosFromPayload();
      ok := AddStringToken(methodUid, |methodUid|);
    }

    /** reset(uid, method) with UID values. */
    method ResetUid(invokingUid: seq<uint8>, methodUid: seq<uint8>)
      requires Valid() && |invokingUid| == 8 && |methodUid| == 8
      modifies this, buf
      ensures Valid() && Header() == Zeros(HEADER_SIZE)
      ensures Payload() == [CALL] + EncodeBytes(invokingUid) + EncodeBytes(methodUid)
    {
      hide Valid, Header, Payload, Room, EncodeBytes;
      UidWidth(invokingUid);
      UidWidth(methodUid);
      Reset();
      PosFromPayload();
      Put([CALL]);
      PosFromPayload();
      var ok := AddStringToken(invokingUid, |invokingUid|);
      PosFromPayload();
      ok := AddStringToken(methodUid, |methodUid|);
    }
  }
}
