/** Building a packet and committing it: the end-to-end round trip over the actual objects. */
module TcgLoopback {
  import opened DparmTypes
  import opened TcgTypes
  import opened TcgToken
  import opened TcgCodec
  import opened TcgCommand
  import opened TcgResponse

  /** The items of the tail that complete(true) appends. */
  const TAIL_ITEMS: seq<Item> :=
    [Symbol(ENDOFDATA), Symbol(STARTLIST), Number(0), Number(0), Number(0), Symbol(ENDLIST)]

  lemma TailIsItems()
    ensures EncodeAll(TAIL_ITEMS) == TAIL && ValidItems(TAIL_ITEMS)
    ensures TokensOfAll(TAIL_ITEMS) ==
      [Token([ENDOFDATA]), Token([STARTLIST]), Token([0]), Token([0]), Token([0]), Token([ENDLIST])]
  {
    hide EncodeAll, TokensOfAll;
    var t5, t4, t3 := [Symbol(ENDLIST)], [Number(0), Symbol(ENDLIST)], TAIL_ITEMS[3..];
    var t2, t1 := TAIL_ITEMS[2..], TAIL_ITEMS[1..];
    OneItem(Symbol(ENDLIST));
    ConsItem(Number(0), t5);
    ConsItem(Number(0), t4);
    ConsItem(Number(0), t3);
    ConsItem(Symbol(STARTLIST), t2);
    ConsItem(Symbol(ENDOFDATA), t1);
    assert t4 == [Number(0)] + t5 && t3 == [Number(0)] + t4 && t2 == [Number(0)] + t3;
    assert t1 == [Symbol(STARTLIST)] + t2 && TAIL_ITEMS == [Symbol(ENDOFDATA)] + t1;
  }

  /** Any builder call, chosen by the item. */
  method AddItem(cmd: TcgCommandImpl, item: Item)
    requires cmd.Valid() && |Encode(item)| <= cmd.Room()
    modifies cmd, cmd.buf
    ensures cmd.Valid() && cmd.Header() == old(cmd.Header())
    ensures cmd.Payload() == old(cmd.Payload()) + Encode(item)
  {
    hide TcgCommandImpl.Valid, TcgCommandImpl.Payload, TcgCommandImpl.Header, TcgCommandImpl.Room, EncodeNumber,
         EncodeBytes;
    match item
    case Symbol(code) => var ok := cmd.AddByteToken(code);
    case Number(v) => var ok := cmd.AddNumberToken(v);
    case Bytes(data) => var ok := cmd.AddStringToken(data, |data|);
    case Raw(data) => var ok := cmd.AddRawToken(data);
  }

  method AddItems(cmd: TcgCommandImpl, items: seq<Item>)
    requires cmd.Valid() && |EncodeAll(items)| <= cmd.Room()
    modifies cmd, cmd.buf
    ensures cmd.Valid() && cmd.Header() == old(cmd.Header())
    ensures cmd.Payload() == old(cmd.Payload()) + EncodeAll(items)
    decreases |items|
  {
    hide TcgCommandImpl.Valid, TcgCommandImpl.Payload, TcgCommandImpl.Header, TcgCommandImpl.Room, Encode;
    if items != [] {
      cmd.PosFromPayload();
      AddItem(cmd, items[0]);
      cmd.PosFromPayload();
      AddItems(cmd, items[1..]);
      assert old(cmd.Payload()) + Encode(items[0]) + EncodeAll(items[1..])
          == old(cmd.Payload()) + (Encode(items[0]) + EncodeAll(items[1..]));
    }
  }

  /**
   * Packet round trip: items that fit the receive buffer, built, completed and committed, come back as exactly
   * their tokens and the tail. No alignment byte appears, and the memory behind the buffer does not matter.
   */
  method RoundTrip(items: seq<Item>, slack: nat -> uint8) returns (r: DparmResult, tokens: seq<Token>)
    requires ValidItems(items) && HEADER_SIZE + |EncodeAll(items)| + |TAIL| <= MIN_BUFFER_LENGTH
    ensures r == DparmResult(OK, 0, 0)
    ensures tokens == TokensOfAll(items) + TokensOfAll(TAIL_ITEMS)
  {
    hide TcgCommandImpl.Valid, EncodeAll, TokensOfAll, Tokenize, Stamped, AlignPad, FromBE32;
    var cmd := new TcgCommandImpl();
    AddItems(cmd, items);
    cmd.PosFromPayload();
    var ok := cmd.Complete(true);
    ghost var all := items + TAIL_ITEMS;
    TailIsItems();
    EncodeAllAppend(items, TAIL_ITEMS);
    TokensOfAllAppend(items, TAIL_ITEMS);
    ghost var body := EncodeAll(all);
    assert cmd.Payload() == body + TcgCommand.Zeros(AlignPad(|body|));
    cmd.PosFromPayload();
    var resp := new TcgResponseImpl(slack);
    CopyPacket(cmd, resp, body);
    CommitPrinted(resp.buf[..], slack, all);
    r := resp.Commit();
    tokens := resp.tokens;
  }

  /** The transport: the first 2048 bytes of the command buffer arrive in the receive buffer. */
  method CopyPacket(cmd: TcgCommandImpl, resp: TcgResponseImpl, ghost body: seq<uint8>)
    requires cmd.Valid() && resp.Valid() && body <= cmd.Payload()
    requires HEADER_SIZE + |body| <= MIN_BUFFER_LENGTH && HEADER_SIZE + |body| <= MAX_BUFFER_LENGTH
    requires exists h: seq<uint8> :: |h| == HEADER_SIZE && cmd.Header() == Stamped(h, |body|)
    modifies resp.buf
    ensures resp.Valid()
    ensures LengthAt(resp.buf[..], AT_SUBPACKET_LENGTH) == |body|
    ensures resp.buf[HEADER_SIZE..HEADER_SIZE + |body|] == body
  {
    hide Stamped, FromBE32, BE32;
    forall k | 0 <= k < MIN_BUFFER_LENGTH {
      resp.buf[k] := cmd.buf[k];
    }
    ghost var h: seq<uint8> :| |h| == HEADER_SIZE && cmd.Header() == Stamped(h, |body|);
    LengthsNest(h, |body|);
    assert resp.buf[..][AT_SUBPACKET_LENGTH..AT_SUBPACKET_LENGTH + 4]
        == cmd.Header()[AT_SUBPACKET_LENGTH..AT_SUBPACKET_LENGTH + 4];
    forall k | 0 <= k < |body|
      ensures resp.buf[HEADER_SIZE..HEADER_SIZE + |body|][k] == body[k]
    {
      assert resp.buf[HEADER_SIZE + k] == cmd.buf[HEADER_SIZE + k] == cmd.Payload()[k];
    }
  }
}
