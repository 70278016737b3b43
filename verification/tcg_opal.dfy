/** Session clients of src/tcg/tcg_device_opal_base.cc. */
module TcgOpal {
  import opened DparmTypes
  import opened TcgTypes
  import opened TcgToken
  import opened TcgCodec
  import opened TcgCommand
  import opened TcgResponse
  import opened TcgDevice
  import opened TcgPayloads
  import opened TcgReader
  import opened TcgSession

  lemma GetTableShape(call: seq<Item>, a: seq<Item>, b: seq<Item>)
    ensures call + [Symbol(STARTLIST)] + [Symbol(STARTLIST)] + a + b + [Symbol(ENDLIST)] + [Symbol(ENDLIST)]
         == call + ListItems(ListItems(a + b))
  {
    assert [Symbol(STARTLIST)] + (a + b) + [Symbol(ENDLIST)] == ListItems(a + b);
  }

  method BuildGetTable(table: seq<uint8>, startCol: uint16, endCol: uint16) returns (cmd: TcgCommandImpl)
    ensures fresh(cmd) && fresh(cmd.buf) && cmd.Valid()
    ensures Completed(cmd, GetTableItems(table, startCol, endCol))
       <==> FitsBuffer(GetTableItems(table, startCol, endCol))
  {
    hide TcgCommandImpl.Valid, Completed, Built, NameItems, CallItems, ListItems, FitsBuffer;
    cmd := new TcgCommandImpl();
    ghost var call := BeginRaw(cmd, table, METHOD_GET);
    ghost var items := Add(cmd, Symbol(STARTLIST), call);
    items := Add(cmd, Symbol(STARTLIST), items);
    items := AddName(cmd, Number(STARTCOLUMN), Number(startCol), items);
    items := AddName(cmd, Number(ENDCOLUMN), Number(endCol), items);
    items := Add(cmd, Symbol(ENDLIST), items);
    items := Add(cmd, Symbol(ENDLIST), items);
    Finish(cmd, items);
    GetTableShape(call, NameItems(Number(STARTCOLUMN), Number(startCol)), NameItems(Number(ENDCOLUMN), Number(endCol)));
  }

  /** opalGetTable: one GET packet with the encoded UID and the column range; the device's answer decides. */
  method OpalGetTable(session: TcgSessionImpl, resp: TcgResponseImpl, table: seq<uint8>, startCol: uint16,
                      endCol: uint16)
    returns (r: DparmReturn<uint8>)
    requires session.Valid() && resp.Valid()
    modifies session.device, session.device.drive, session.device.clock, resp, resp.buf
    ensures resp.Valid()
    ensures old(session.device.drive.sent) <= session.device.drive.sent
    ensures |session.device.drive.sent| == |old(session.device.drive.sent)| + if session.device.isAnySSC then 1 else 0
    ensures session.device.isAnySSC && FitsBuffer(GetTableItems(table, startCol, endCol)) ==>
      SentFirst(old(session.device.drive.sent), session.device.drive.sent, GetTableItems(table, startCol, endCol))
    ensures session.device.isAnySSC && IsAtom(table) && |table| <= 2049 ==>
      AsksForColumns(session.device.drive.sent[|old(session.device.drive.sent)|], table, startCol, endCol)
    ensures session.device.isAnySSC ==>
      AddressedBy(session.device.drive.sent[|old(session.device.drive.sent)|], session.numbers)
    ensures Asked(old(session.device.answers), session.device.answers)
    ensures old(session.device.drive.delivered) <= session.device.drive.delivered
    ensures var a := session.device.answers[|old(session.device.answers)|];
      && Outcome(a, resp.slack, r)
      && (!session.device.isAnySSC ==> a.result == DparmResult(NOT_SUPPORTED, 0, 0))
      && (a.result.IsOk() ==> resp.tokens == TokensIn(a, resp.slack))
      && (a.result.IsOk() ==> DeliveredLast(old(session.device.drive.delivered), session.device.drive.delivered, a))
  {
    hide TcgCommandImpl.Valid, TcgSessionImpl.Valid, Completed, Carries, Outcome, TokensIn, GetTableItems,
         AddressedTo, FitsBuffer, TcgCommandImpl.Payload, TcgCommandImpl.Header, TcgCommandImpl.Packet, IsAtom,
         AsksForColumns;
    var cmd := BuildGetTable(table, startCol, endCol);
    r := session.SendCommand(cmd, resp);
    if IsAtom(table) && |table| <= 2049 {
      GetTableFits(table, startCol, endCol);
      GetTablePacketReads(cmd.Packet(), table, startCol, endCol);
    }
  }

  /** Every packet from position start on is addressed to TPer session t from host session h. */
  ghost predicate AllAddressed(sent: seq<seq<uint8>>, start: nat, h: uint32, t: uint32) {
    forall k :: start <= k < |sent| ==> |sent[k]| >= HEADER_SIZE && AddressedTo(sent[k], h, t)
  }

  /** Any number of table reads in one session: every packet carries the session's numbers. */
  method ReadTables(session: TcgSessionImpl, resp: TcgResponseImpl, tables: seq<seq<uint8>>, startCol: uint16,
                    endCol: uint16)
    requires session.Valid() && resp.Valid()
    modifies session.device, session.device.drive, session.device.clock, resp, resp.buf
    ensures resp.Valid() && old(session.device.drive.sent) <= session.device.drive.sent
    ensures old(session.device.answers) <= session.device.answers
    ensures old(session.device.drive.delivered) <= session.device.drive.delivered
    ensures forall h, t :: session.numbers == Some((h, t)) ==>
      AllAddressed(session.device.drive.sent, |old(session.device.drive.sent)|, h, t)
    ensures session.device.isAnySSC ==>
      |session.device.drive.sent| == |old(session.device.drive.sent)| + |tables|
  {
    hide TcgSessionImpl.Valid, AddressedTo, GetTableItems, Outcome, TokensIn, Carries;
    var i := 0;
    while i < |tables|
      invariant i <= |tables| && session.Valid() && resp.Valid()
      invariant old(session.device.drive.sent) <= session.device.drive.sent
      invariant old(session.device.answers) <= session.device.answers
      invariant old(session.device.drive.delivered) <= session.device.drive.delivered
      invariant forall h, t :: session.numbers == Some((h, t)) ==>
        AllAddressed(session.device.drive.sent, |old(session.device.drive.sent)|, h, t)
      invariant session.device.isAnySSC ==> |session.device.drive.sent| == |old(session.device.drive.sent)| + i
    {
      var r := OpalGetTable(session, resp, tables[i], startCol, endCol);
      i := i + 1;
    }
  }

  /**
   * A session of an Opal device from its start on. If the device's answer to STARTSESSION is a success and carries h
   * and t as numbers in tokens 4 and 5, then every packet after the first is addressed with both, big-endian.
   */
  method StartAndRead(session: TcgSessionImpl, resp: TcgResponseImpl, sp: seq<uint8>, challenge: seq<uint8>,
                      authority: seq<uint8>, tables: seq<seq<uint8>>, startCol: uint16, endCol: uint16)
    returns (r: DparmReturn<uint8>, ghost judged: DparmReturn<uint8>)
    requires session.Valid() && resp.Valid() && |sp| == 8
    modifies session`sessionOpened, session`hostSessionNum, session`tperSessionNum, session`trace, session`numbers,
             session.device, session.device.drive, session.device.clock, resp, resp.buf
    ensures session.Valid()
    ensures Asked(old(session.device.answers), session.device.answers)
    ensures old(session.device.drive.delivered) <= session.device.drive.delivered
    ensures var device := session.device;
      var a := device.answers[|old(device.answers)|];
      && Outcome(a, session.slack, judged)
      && (a.result.IsOk() ==> a in device.drive.delivered[|old(device.drive.delivered)|..])
      && (device.isAnySSC && !device.isEnterprise ==>
            && |device.drive.sent| == |old(device.drive.sent)| + 1 + |tables|
            && forall h, t :: Success(judged) && Carry(TokensIn(a, session.slack), h, t) ==>
                 AllAddressed(device.drive.sent, |old(device.drive.sent)| + 1, h, t))
  {
    hide TcgSessionImpl.Valid, AddressedTo, Carry, Outcome, TokensIn, EncodeBytes, Carries, StartItems, AllAddressed,
         Authenticated, TcgSessionImpl.StartPayload, BothRead;
    r, judged := session.Start(sp, challenge, EncodeBytes(authority));
    ReadTables(session, resp, tables, startCol, endCol);
  }

  method BuildRevert() returns (cmd: TcgCommandImpl)
    ensures fresh(cmd) && fresh(cmd.buf) && cmd.Valid() && Completed(cmd, RevertItems())
  {
    hide TcgCommandImpl.Valid, Completed, Built, CallItems;
    cmd := new TcgCommandImpl();
    ghost var call := Begin(cmd, ADMINSP_UID, METHOD_REVERT);
    ghost var items := Add(cmd, Symbol(STARTLIST), call);
    items := Add(cmd, Symbol(ENDLIST), items);
    Finish(cmd, items);
    assert items == call + ListItems([]);
    RevertFits();
  }

  /** The REVERT command itself; a session that it succeeds in is not to be closed any more. */
  method SendRevert(sess: TcgSessionImpl, slack: nat -> uint8) returns (r: DparmReturn<uint8>)
    requires sess.Valid()
    modifies sess`flagAutoClose, sess`trace, sess.device, sess.device.drive, sess.device.clock
    ensures sess.Valid() && sess.trace == old(sess.trace) + if r.IsOk() then [Kept] else []
    ensures Asked(old(sess.device.answers), sess.device.answers)
    ensures Outcome(sess.device.answers[|old(sess.device.answers)|], slack, r)
    ensures old(sess.device.drive.sent) <= sess.device.drive.sent
    ensures |sess.device.drive.sent| == |old(sess.device.drive.sent)| + if sess.device.isAnySSC then 1 else 0
    ensures sess.device.isAnySSC ==>
      SentFirst(old(sess.device.drive.sent), sess.device.drive.sent, RevertItems())
      && AsksToRevert(sess.device.drive.sent[|old(sess.device.drive.sent)|])
      && AddressedBy(sess.device.drive.sent[|old(sess.device.drive.sent)|], sess.numbers)
  {
    hide TcgCommandImpl.Valid, TcgSessionImpl.Valid, Completed, Carries, Outcome, TokensIn, AddressedTo, RevertItems,
         TcgCommandImpl.Packet, TcgCommandImpl.Payload, TcgCommandImpl.Header, AsksToRevert;
    RevertFits();
    var cmd := BuildRevert();
    var resp := new TcgResponseImpl(slack);
    r := sess.SendCommand(cmd, resp);
    RevertPacketReads(cmd.Packet());
    if r.IsOk() {
      sess.DontAutoClose();
    }
  }

  /** The part of revertTPer behind the start, with the session's destruction on the way out. */
  method RevertAndClose(sess: TcgSessionImpl, slack: nat -> uint8, start: DparmReturn<uint8>)
    returns (r: DparmReturn<uint8>)
    requires sess.Valid() && sess.device.isAnySSC && sess.flagAutoClose && (Success(start) ==> sess.sessionOpened)
    modifies sess`sessionOpened, sess`flagAutoClose, sess`trace, sess.device, sess.device.drive, sess.device.clock
    ensures old(sess.device.drive.sent) <= sess.device.drive.sent && old(sess.device.answers) <= sess.device.answers
    ensures if Success(start)
            then old(sess.device.answers) < sess.device.answers
                 && Outcome(sess.device.answers[|old(sess.device.answers)|], slack, r)
            else r == start
    ensures var n, sent := |old(sess.device.drive.sent)|, sess.device.drive.sent;
      if Success(start)
      then |sent| == (if r.IsOk() then n + 1 else n + 2)
           && AsksToRevert(sent[n]) && (!r.IsOk() ==> SaysEnd(sent[n + 1]))
      else if old(sess.sessionOpened) then |sent| == n + 1 && SaysEnd(sent[n])
      else |sent| == n
    ensures forall h, t :: sess.numbers == Some((h, t)) ==>
      AllAddressed(sess.device.drive.sent, |old(sess.device.drive.sent)|, h, t)
  {
    hide TcgSessionImpl.Valid, Carries, Outcome, AddressedTo, RevertItems, SaysEnd, AsksToRevert;
    sess.FlagsFollowTrace();
    r := start;
    if r.IsOk() && r.value == 0 {
      r := SendRevert(sess, slack);
      sess.FlagsFollowTrace();
      assert r.IsOk() ==> sess.trace[|sess.trace| - 1] == Kept;
    }
    sess.Close();
  }

  /** The secret that revertTPer puts into STARTSESSION. */
  function RevertSecret(hashPassword: seq<uint8> -> seq<uint8>, password: seq<uint8>,
                        isPsid: bool): Option<seq<uint8>> {
    if password == [] then None else if isPsid then Some(password) else Some(hashPassword(password))
  }

  /** The items of the STARTSESSION that revertTPer sends. */
  function RevertStart(hashPassword: seq<uint8> -> seq<uint8>, password: seq<uint8>, isPsid: bool): seq<Item> {
    StartItems(ADMINSP_UID, RevertSecret(hashPassword, password, isPsid),
               EncodeBytes(if isPsid then PSID_UID else SID_UID), None)
  }

  /**
   * revertTPer of an Opal device, with the session's destruction on the way out. Three packets at most go out:
   * STARTSESSION; REVERT, if the start succeeded and its session numbers could be read; and the end of the session, if
   * the start succeeded and the revert did not, which on success has closed the session on the device.
   */
  method RevertTPer(device: TcgDevice, hashPassword: seq<uint8> -> seq<uint8>, slack: nat -> uint8,
                    password: seq<uint8>, isPsid: bool)
    returns (r: DparmReturn<uint8>, ghost judged: DparmReturn<uint8>)
    requires device.isAnySSC && !device.isEnterprise
    modifies device, device.drive, device.clock
    // The answer to STARTSESSION, and what it means.
    ensures Asked(old(device.answers), device.answers)
    ensures Outcome(device.answers[|old(device.answers)|], slack, judged)
    // The result.
    ensures var n, answers := |old(device.answers)|, device.answers;
      if !Success(judged) then r == judged
      else if !BothRead(TokensIn(answers[n], slack)) then
        var code := if |TokensIn(answers[n], slack)| < 6 then ILLEGAL_RESPONSE else ILLEGAL_DATA;
        r == DparmReturn(DparmResult(code, 0, 0), 0)
      else n + 1 < |answers| && Outcome(answers[n + 1], slack, r)
    // The packets.
    ensures SentFirst(old(device.drive.sent), device.drive.sent, RevertStart(hashPassword, password, isPsid))
    ensures AsksToStart(device.drive.sent[|old(device.drive.sent)|],
                        [0x00, 0x00, 0x02, 0x05, 0x00, 0x00, 0x00, 0x01],
                        if password == [] then None
                        else Some(if isPsid then password else hashPassword(password)),
                        if isPsid then [0xa8, 0x00, 0x00, 0x00, 0x09, 0x00, 0x01, 0xff, 0x01]
                        else [0xa8, 0x00, 0x00, 0x00, 0x09, 0x00, 0x00, 0x00, 0x06],
                        None)
    ensures var n, sent := |old(device.drive.sent)|, device.drive.sent;
      if !Success(judged) then |sent| == n + 1
      else if !BothRead(TokensIn(device.answers[|old(device.answers)|], slack))
      then |sent| == n + 2 && SaysEnd(sent[n + 1])
      else |sent| == (if r.IsOk() then n + 2 else n + 3)
           && AsksToRevert(sent[n + 1]) && (!r.IsOk() ==> SaysEnd(sent[n + 2]))
    // Whom they address.
    ensures forall h, t :: Success(judged) && Carry(TokensIn(device.answers[|old(device.answers)|], slack), h, t) ==>
      AllAddressed(device.drive.sent, |old(device.drive.sent)| + 1, h, t)
  {
    hide TcgSessionImpl.Valid, Carries, Outcome, TokensIn, StartItems, EncodeBytes, AddressedTo, RevertItems,
         Carry, BothRead, SaysEnd, FitsBuffer, AllAddressed, AsksToStart, AsksToRevert, IsAtom;
    var sess := new TcgSessionImpl(device, hashPassword, slack);
    var uid := SID_UID;
    if isPsid {
      sess.SetNoHashPassword(true);
      uid := PSID_UID;
    }
    UidEncoding(uid);
    StartFits(ADMINSP_UID, RevertSecret(hashPassword, password, isPsid), EncodeBytes(uid), None);
    UidIsAtom(uid);
    EncodedUids();
    sess.FlagsFollowTrace();
    r, judged := sess.Start(ADMINSP_UID, password, [BYTESTRING8] + uid);
    sess.FlagsFollowTrace();
    OpenAfterAccept();
    r := RevertAndClose(sess, slack, r);
  }

  lemma OpenAfterAccept()
    ensures !IsOpen([]) && IsOpen([Accepted]) && !IsOpen([]) && [] + [Accepted] == [Accepted]
  {
    AcceptedIsOpen([]);
    assert [] + [Accepted] == [Accepted];
  }

  lemma EncodedUids()
    ensures ADMINSP_UID == [0x00, 0x00, 0x02, 0x05, 0x00, 0x00, 0x00, 0x01]
    ensures [BYTESTRING8] + PSID_UID == [0xa8, 0x00, 0x00, 0x00, 0x09, 0x00, 0x01, 0xff, 0x01]
    ensures [BYTESTRING8] + SID_UID == [0xa8, 0x00, 0x00, 0x00, 0x09, 0x00, 0x00, 0x00, 0x06]
  {}

  /** The authority that revertTPer encodes is one atom that reads as the UID. */
  lemma UidIsAtom(uid: seq<uint8>)
    requires |uid| == 8
    ensures IsAtom([BYTESTRING8] + uid) && Reads(Token([BYTESTRING8] + uid), Text(uid))
  {
    hide Token.Number;
    assert ([BYTESTRING8] + uid)[1..] == uid;
  }

  lemma UidEncoding(uid: seq<uint8>)
    requires |uid| == 8
    ensures [BYTESTRING8] + uid == EncodeBytes(uid) && |[BYTESTRING8] + uid| <= MAX_ENCODED
  {}
}
