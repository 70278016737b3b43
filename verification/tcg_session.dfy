/** TcgSessionImpl of src/tcg/tcg_session_impl.cc: session life cycle, session numbers and status extraction. */
module TcgSession {
  import opened DparmTypes
  import opened TcgTypes
  import opened TcgToken
  import opened TcgCodec
  import opened TcgCommand
  import opened TcgResponse
  import opened TcgDevice
  import opened TcgLoopback
  import opened TcgPayloads
  import opened TcgReader

  // ---- Life cycle -------------------------------------------------------------------------------------

  /** What matters for the automatic end of a session. */
  datatype Event =
    | Accepted   // a start whose STARTSESSION was accepted
    | AutoEnd    // close() sent an end-of-session command
    | Kept       // dontAutoClose()

  /** An accepted start has not been ended automatically since. */
  predicate IsOpen(trace: seq<Event>) {
    trace != [] && (trace[|trace| - 1] == Accepted || (trace[|trace| - 1] == Kept && IsOpen(trace[..|trace| - 1])))
  }

  /** Between two automatic ends lies an accepted start. */
  ghost predicate EndsSeparated(trace: seq<Event>) {
    forall i, j :: 0 <= i < j < |trace| && trace[i] == AutoEnd && trace[j] == AutoEnd ==>
      exists k :: i < k < j && trace[k] == Accepted
  }

  /** Before every automatic end lies an accepted start. */
  ghost predicate EndsStarted(trace: seq<Event>) {
    forall j :: 0 <= j < |trace| && trace[j] == AutoEnd ==> exists k :: 0 <= k < j && trace[k] == Accepted
  }

  /** After dontAutoClose nothing is ended automatically. */
  ghost predicate KeptIsFinal(trace: seq<Event>) {
    forall i, j :: 0 <= i < j < |trace| && trace[i] == Kept ==> trace[j] != AutoEnd
  }

  ghost predicate Lawful(trace: seq<Event>) {
    EndsSeparated(trace) && EndsStarted(trace) && KeptIsFinal(trace)
  }

  /** While a session is open, an accepted start comes after every automatic end. */
  lemma {:induction false} OpenHasAccepted(trace: seq<Event>) returns (k: nat)
    requires IsOpen(trace)
    ensures k < |trace| && trace[k] == Accepted
    ensures forall i :: k < i < |trace| ==> trace[i] == Kept
  {
    if trace[|trace| - 1] == Accepted {
      k := |trace| - 1;
    } else {
      k := OpenHasAccepted(trace[..|trace| - 1]);
    }
  }

  lemma EndKeepsLawful(trace: seq<Event>)
    requires Lawful(trace) && IsOpen(trace) && Kept !in trace
    ensures Lawful(trace + [AutoEnd])
  {
    var k := OpenHasAccepted(trace);
    var t := trace + [AutoEnd];
    assert t[k] == Accepted;
    forall i, j | 0 <= i < j < |t| && t[i] == AutoEnd && t[j] == AutoEnd
      ensures exists k' :: i < k' < j && t[k'] == Accepted
    {
      if j == |trace| {
        assert trace[i] == AutoEnd && i < k;
      } else {
        var k' :| i < k' < j && trace[k'] == Accepted;
        assert t[k'] == Accepted;
      }
    }
    forall j | 0 <= j < |t| && t[j] == AutoEnd
      ensures exists k' :: 0 <= k' < j && t[k'] == Accepted
    {
      if j < |trace| {
        var k' :| 0 <= k' < j && trace[k'] == Accepted;
        assert t[k'] == Accepted;
      }
    }
  }

  lemma OtherKeepsLawful(trace: seq<Event>, e: Event)
    requires Lawful(trace) && e != AutoEnd
    ensures Lawful(trace + [e])
  {
    var t := trace + [e];
    forall i, j | 0 <= i < j < |t| && t[i] == AutoEnd && t[j] == AutoEnd
      ensures exists k' :: i < k' < j && t[k'] == Accepted
    {
      var k' :| i < k' < j && trace[k'] == Accepted;
      assert t[k'] == Accepted;
    }
    forall j | 0 <= j < |t| && t[j] == AutoEnd
      ensures exists k' :: 0 <= k' < j && t[k'] == Accepted
    {
      var k' :| 0 <= k' < j && trace[k'] == Accepted;
      assert t[k'] == Accepted;
    }
  }

  // ---- Status extraction --------------------------------------------------------------------------------

  function Fail(code: Code): DparmReturn<uint8> {
    DparmReturn(DparmResult(code, 0, 0), 0)
  }

  /** All three length fields of a received header are non-zero. */
  predicate HasPayload(s: seq<uint8>)
    requires |s| == MIN_BUFFER_LENGTH
  {
    FromBE32(s[16..20]) != 0 && FromBE32(s[40..44]) != 0 && FromBE32(s[52..56]) != 0
  }

  /** The response ends in ENDOFDATA and a status list whose first entry is the token status. */
  predicate EndsWithStatus(ts: seq<Token>, status: Token) {
    |ts| >= 6 && ts[|ts| - 6..] ==
      [Token([ENDOFDATA]), Token([STARTLIST]), status, Token([0]), Token([0]), Token([ENDLIST])]
  }

  /** A status token with this low byte leads to r; an over-long atom has an unspecified value. */
  ghost predicate Reports(exec: DparmResult, t: Token, status: uint8, r: DparmReturn<uint8>)
    requires t.Framed()
  {
    && t.ReadsAsNumber()
    && (|t.buf| <= 9 ==> status == t.Number() % 256)
    && r == if status == 0 then DparmReturn(exec, 0)
            else DparmReturn(DparmResult(TCG_ERROR_STATUS, exec.sysError, exec.driveStatus), status)
  }

  /** What sendCommand makes of a delivered response. */
  ghost predicate Judged(exec: DparmResult, s: seq<uint8>, ts: seq<Token>, r: DparmReturn<uint8>)
    requires |s| == MIN_BUFFER_LENGTH && exec.IsOk() && AllFramed(ts)
  {
    if !HasPayload(s) || ts == [] then r == Fail(ILLEGAL_RESPONSE)
    else
      assert ts[0].Framed();
      if ts[0].Type() == ENDOFSESSION then r == Fail(OK)
      else if |ts| < 5 then r == Fail(ILLEGAL_RESPONSE)
      else
        var last, open, status := ts[|ts| - 1], ts[|ts| - 5], ts[|ts| - 4];
        assert last.Framed() && open.Framed() && status.Framed();
        if last.Type() != ENDLIST && open.Type() == STARTLIST then r == Fail(ILLEGAL_RESPONSE)
        else if !status.ReadsAsNumber() then r == Fail(ILLEGAL_DATA)
        else exists v: uint8 :: Reports(exec, status, v, r)
  }

  /** The tokens of an answer. */
  function TokensIn(a: Answer, slack: nat -> uint8): (ts: seq<Token>)
    ensures AllFramed(ts)
  {
    if |a.bytes| != MIN_BUFFER_LENGTH then []
    else match Committed(a.bytes, slack) case None => [] case Some(ts) => ts
  }

  /** What sendCommand returns for an answer. */
  ghost predicate Outcome(a: Answer, slack: nat -> uint8, r: DparmReturn<uint8>) {
    if !a.result.IsOk() then r == DparmReturn(a.result, 0)
    else |a.bytes| == MIN_BUFFER_LENGTH && Judged(a.result, a.bytes, TokensIn(a, slack), r)
  }

  predicate Success(r: DparmReturn<uint8>) {
    r.IsOk() && r.value == 0
  }

  /** A response of its own that only says that the session has ended. */
  predicate EndsSession(ts: seq<Token>) {
    ts != [] && |ts[0].buf| >= 1 && ts[0].Type() == ENDOFSESSION
  }

  /** The five last tokens are a list, as far as their first and last tell. */
  predicate HasStatusList(ts: seq<Token>) {
    && |ts| >= 5 && |ts[|ts| - 1].buf| >= 1 && |ts[|ts| - 5].buf| >= 1
    && ts[|ts| - 1].Type() == ENDLIST && ts[|ts| - 5].Type() == STARTLIST
  }

  /** The fifth token from the end opens a list. */
  predicate OpensStatus(ts: seq<Token>) {
    |ts| >= 5 && |ts[|ts| - 5].buf| >= 1 && ts[|ts| - 5].Type() == STARTLIST
  }

  /** The fourth token from the end reads as a number with a low byte of zero. */
  predicate HasZeroStatus(ts: seq<Token>) {
    && |ts| >= 5 && 1 <= |ts[|ts| - 4].buf| <= 9
    && ts[|ts| - 4].ReadsAsNumber() && ts[|ts| - 4].Number() % 256 == 0
  }

  /** No status atom of more than eight content bytes, whose value the source leaves undefined. */
  predicate HasDefinedStatus(ts: seq<Token>) {
    |ts| >= 5 ==> |ts[|ts| - 4].buf| <= 9
  }

  /** What the source asks of the brackets: not that the list is closed and opened, but that not both are wrong. */
  predicate PassesGuard(ts: seq<Token>) {
    && |ts| >= 5 && |ts[|ts| - 1].buf| >= 1 && |ts[|ts| - 5].buf| >= 1
    && !(ts[|ts| - 1].Type() != ENDLIST && ts[|ts| - 5].Type() == STARTLIST)
  }

  /** Exactly when a delivered answer counts as success, whatever it is. */
  lemma SucceedsIff(a: Answer, slack: nat -> uint8, r: DparmReturn<uint8>)
    requires Outcome(a, slack, r) && a.result.IsOk() && HasDefinedStatus(TokensIn(a, slack))
    ensures var ts := TokensIn(a, slack);
            Success(r) <==> HasPayload(a.bytes) && (EndsSession(ts) || (HasZeroStatus(ts) && PassesGuard(ts)))
  {
    hide KindOf, Token.Number, FromBE32, Committed;
    var ts := TokensIn(a, slack);
    if ts != [] {
      assert ts[0].Framed();
    }
    if |ts| >= 5 {
      assert ts[|ts| - 1].Framed() && ts[|ts| - 5].Framed() && ts[|ts| - 4].Framed();
    }
  }

  /**
   * Success means a payload with a status list and a zero status, exactly if in a payload with a zero status the
   * fifth token from the end opens a list and an answer that ends the session has a list and a zero status besides.
   */
  lemma GuardIsRightIff(a: Answer, slack: nat -> uint8, r: DparmReturn<uint8>)
    requires Outcome(a, slack, r) && a.result.IsOk() && HasDefinedStatus(TokensIn(a, slack))
    ensures var ts := TokensIn(a, slack);
            (Success(r) <==> HasPayload(a.bytes) && HasStatusList(ts) && HasZeroStatus(ts))
            <==> (HasPayload(a.bytes) ==>
                    if EndsSession(ts) then HasStatusList(ts) && HasZeroStatus(ts)
                    else HasZeroStatus(ts) ==> OpensStatus(ts))
  {
    hide KindOf, Token.Number, Token.Type, FromBE32, Committed, Outcome, Token.ReadsAsNumber;
    var ts := TokensIn(a, slack);
    SucceedsIff(a, slack, r);
    if |ts| >= 5 {
      assert ts[|ts| - 1].Framed() && ts[|ts| - 5].Framed() && ts[|ts| - 4].Framed();
    }
  }

  /** Which of the two errors a delivered answer is refused with, and exactly when. */
  lemma RefusedIff(a: Answer, slack: nat -> uint8, r: DparmReturn<uint8>)
    requires Outcome(a, slack, r) && a.result.IsOk()
    ensures var ts := TokensIn(a, slack);
            && (r.result.code == ILLEGAL_RESPONSE <==>
                  !HasPayload(a.bytes) || (!EndsSession(ts) && !PassesGuard(ts)))
            && (r.result.code == ILLEGAL_DATA <==>
                  HasPayload(a.bytes) && !EndsSession(ts) && PassesGuard(ts) && !ts[|ts| - 4].ReadsAsNumber())
  {
    hide KindOf, Token.Number, Token.Type, FromBE32, Committed, Token.ReadsAsNumber;
    var ts := TokensIn(a, slack);
    if ts != [] {
      assert ts[0].Framed();
    }
    if |ts| >= 5 {
      assert ts[|ts| - 1].Framed() && ts[|ts| - 5].Framed() && ts[|ts| - 4].Framed();
    }
  }

  /** Short answers are refused although count - 5 wraps around. */
  lemma ShortAnswerIsIllegal(a: Answer, slack: nat -> uint8, r: DparmReturn<uint8>)
    requires Outcome(a, slack, r) && a.result.IsOk()
    requires |TokensIn(a, slack)| < 5 && !EndsSession(TokensIn(a, slack))
    ensures r == Fail(ILLEGAL_RESPONSE)
  {
    hide KindOf, FromBE32, Committed;
    var ts := TokensIn(a, slack);
    if ts != [] {
      assert ts[0].Framed();
    }
  }

  /** An answer that ends the session counts as success, also for a command that opens one. */
  lemma EndOfSessionSucceeds(a: Answer, slack: nat -> uint8, r: DparmReturn<uint8>)
    requires Outcome(a, slack, r) && a.result.IsOk() && HasPayload(a.bytes) && EndsSession(TokensIn(a, slack))
    ensures r == Fail(OK) && Success(r)
  {
    hide KindOf, FromBE32, Committed;
    assert TokensIn(a, slack)[0].Framed();
  }

  /**
   * A regular answer succeeds exactly when the low byte of its status is zero, and otherwise reports that byte: the
   * status is narrowed to eight bits.
   */
  lemma StatusDecides(a: Answer, slack: nat -> uint8, r: DparmReturn<uint8>, v: uint64)
    requires Outcome(a, slack, r) && a.result.IsOk() && HasPayload(a.bytes)
    requires EndsWithStatus(TokensIn(a, slack), Token(EncodeNumber(v))) && !EndsSession(TokensIn(a, slack))
    ensures r == if v % 256 == 0 then DparmReturn(a.result, 0)
                 else DparmReturn(DparmResult(TCG_ERROR_STATUS, a.result.sysError, a.result.driveStatus), v % 256)
  {
    hide Committed, FromBE32, EncodeNumber;
    NumberRoundTrip(v);
    var ts := TokensIn(a, slack);
    var tail := ts[|ts| - 6..];
    assert ts[|ts| - 1] == tail[5] && ts[|ts| - 5] == tail[1] && ts[|ts| - 4] == tail[2];
    assert tail[5].Type() == ENDLIST;
    assert ts[0].Framed();
  }

  /** Success means a zero status for every status but the non-zero multiples of 256. */
  lemma StatusIsFaithfulIff(a: Answer, slack: nat -> uint8, r: DparmReturn<uint8>, v: uint64)
    requires Outcome(a, slack, r) && a.result.IsOk() && HasPayload(a.bytes)
    requires EndsWithStatus(TokensIn(a, slack), Token(EncodeNumber(v))) && !EndsSession(TokensIn(a, slack))
    ensures (Success(r) <==> v == 0) <==> v == 0 || v % 256 != 0
  {
    hide Outcome, EndsSession, EndsWithStatus;
    StatusDecides(a, slack, r, v);
  }

  // ---- Answers that pass although they should not ---------------------------------------------------------

  const GOOD := DparmResult(OK, 0, 0)

  /** The answer that delivers these items. */
  function Delivering(items: seq<Item>): Answer {
    Answer(GOOD, WithPayload(EncodeAll(items)))
  }

  lemma DeliveredTokens(items: seq<Item>, slack: nat -> uint8)
    requires ValidItems(items) && 1 <= |EncodeAll(items)| < 256
    ensures TokensIn(Delivering(items), slack) == TokensOfAll(items) && HasPayload(Delivering(items).bytes)
  {
    hide Committed, WithPayload, EncodeAll, FromBE32;
    PayloadCommits(items, slack);
    PayloadFields(EncodeAll(items));
  }

  const FIVE_ZEROS: seq<Item> := [Number(0), Number(0), Number(0), Number(0), Number(0)]

  lemma FiveTokens()
    ensures |EncodeAll(FIVE_ZEROS)| == 5 && ValidItems(FIVE_ZEROS)
    ensures TokensOfAll(FIVE_ZEROS) == [Token([0]), Token([0]), Token([0]), Token([0]), Token([0])]
  {
    hide EncodeAll, TokensOfAll;
    var t4, t3, t2, t1 := [Number(0)], FIVE_ZEROS[3..], FIVE_ZEROS[2..], FIVE_ZEROS[1..];
    OneItem(Number(0));
    ConsItem(Number(0), t4);
    ConsItem(Number(0), t3);
    ConsItem(Number(0), t2);
    ConsItem(Number(0), t1);
    assert t3 == [Number(0)] + t4 && t2 == [Number(0)] + t3 && t1 == [Number(0)] + t2;
    assert FIVE_ZEROS == [Number(0)] + t1;
  }

  /** Five zeros, without any status list, count as success. */
  lemma FiveZerosPass(slack: nat -> uint8, r: DparmReturn<uint8>)
    requires Outcome(Delivering(FIVE_ZEROS), slack, r)
    ensures !HasStatusList(TokensIn(Delivering(FIVE_ZEROS), slack)) && Success(r)
  {
    FiveTokens();
    hide EncodeAll, TokensOfAll, TokensIn, Outcome, HasPayload, Delivering;
    DeliveredTokens(FIVE_ZEROS, slack);
    DeliveringIsGood(FIVE_ZEROS);
    SucceedsIff(Delivering(FIVE_ZEROS), slack, r);
  }

  /** Such an answer is committed at once. */
  lemma DeliveringIsCommitted(items: seq<Item>, bytes: seq<uint8>, slack: nat -> uint8, before: seq<Token>,
                              r: DparmResult, after: seq<Token>)
    requires ValidItems(items) && 1 <= |EncodeAll(items)| < 256
    requires Decides(Delivering(items), bytes, slack, before, r, after)
    ensures r == GOOD && after == TokensOfAll(items)
  {
    hide WithPayload, EncodeAll, FromBE32, Tokenize, TokensOfAll;
    PayloadCommits(items, slack);
    PayloadFields(EncodeAll(items));
    CommittedData(bytes, slack);
  }

  lemma DeliveringIsGood(items: seq<Item>)
    ensures Delivering(items).result == GOOD && GOOD.IsOk()
  {}

  const END: seq<Item> := [Symbol(ENDOFSESSION)]

  /** One ENDOFSESSION token counts as success, whatever was asked. */
  lemma EndAlonePasses(slack: nat -> uint8, r: DparmReturn<uint8>)
    requires Outcome(Delivering(END), slack, r)
    ensures TokensIn(Delivering(END), slack) == [Token([ENDOFSESSION])] && Success(r)
  {
    OneItem(Symbol(ENDOFSESSION));
    hide EncodeAll, TokensOfAll, TokensIn, Outcome, HasPayload, Delivering;
    DeliveredTokens(END, slack);
    DeliveringIsGood(END);
    EndOfSessionSucceeds(Delivering(END), slack, r);
  }

  const EMPTY_STATUS: seq<Item> :=
    [Symbol(ENDOFDATA), Symbol(STARTLIST), Bytes([]), Number(0), Number(0), Symbol(ENDLIST)]

  lemma EmptyStatusTokens()
    ensures |EncodeAll(EMPTY_STATUS)| == 7 && ValidItems(EMPTY_STATUS)
    ensures TokensOfAll(EMPTY_STATUS) ==
      [Token([ENDOFDATA]), Token([STARTLIST]), Token([0xa1, 0x00]), Token([0]), Token([0]), Token([ENDLIST])]
  {
    hide EncodeAll, TokensOfAll;
    var t5, t4, t3 := [Symbol(ENDLIST)], EMPTY_STATUS[4..], EMPTY_STATUS[3..];
    var t2, t1 := EMPTY_STATUS[2..], EMPTY_STATUS[1..];
    OneItem(Symbol(ENDLIST));
    ConsItem(Number(0), t5);
    ConsItem(Number(0), t4);
    ConsItem(Bytes([]), t3);
    ConsItem(Symbol(STARTLIST), t2);
    ConsItem(Symbol(ENDOFDATA), t1);
    assert t4 == [Number(0)] + t5 && t3 == [Number(0)] + t4 && t2 == [Bytes([])] + t3;
    assert t1 == [Symbol(STARTLIST)] + t2 && EMPTY_STATUS == [Symbol(ENDOFDATA)] + t1;
  }

  /** A status list whose status is the empty byte string counts as success. */
  lemma EmptyStatusPasses(slack: nat -> uint8, r: DparmReturn<uint8>)
    requires Outcome(Delivering(EMPTY_STATUS), slack, r)
    ensures var ts := TokensIn(Delivering(EMPTY_STATUS), slack);
            EndsWithStatus(ts, Token([0xa1, 0x00])) && Token([0xa1, 0x00]).Type() == TOKENID_BYTESTRING && Success(r)
  {
    EmptyStatusTokens();
    hide EncodeAll, TokensOfAll, TokensIn, Outcome, HasPayload, Delivering;
    DeliveredTokens(EMPTY_STATUS, slack);
    DeliveringIsGood(EMPTY_STATUS);
    var ts := TokensIn(Delivering(EMPTY_STATUS), slack);
    assert ts[|ts| - 6..] == ts;
    EmptyStringReadsAsNumber();
    SucceedsIff(Delivering(EMPTY_STATUS), slack, r);
  }

  const STATUS_256: seq<Item> :=
    [Symbol(ENDOFDATA), Symbol(STARTLIST), Number(256), Number(0), Number(0), Symbol(ENDLIST)]

  lemma SixTokens()
    ensures |EncodeAll(STATUS_256)| == 8 && ValidItems(STATUS_256)
    ensures TokensOfAll(STATUS_256) ==
      [Token([ENDOFDATA]), Token([STARTLIST]), Token(EncodeNumber(256)), Token([0]), Token([0]), Token([ENDLIST])]
  {
    hide EncodeAll, TokensOfAll;
    var t5, t4, t3, t2, t1 := [Symbol(ENDLIST)], STATUS_256[4..], STATUS_256[3..], STATUS_256[2..], STATUS_256[1..];
    OneItem(Symbol(ENDLIST));
    ConsItem(Number(0), t5);
    ConsItem(Number(0), t4);
    ConsItem(Number(256), t3);
    ConsItem(Symbol(STARTLIST), t2);
    ConsItem(Symbol(ENDOFDATA), t1);
    assert t4 == [Number(0)] + t5 && t3 == [Number(0)] + t4 && t2 == [Number(256)] + t3;
    assert t1 == [Symbol(STARTLIST)] + t2 && STATUS_256 == [Symbol(ENDOFDATA)] + t1;
  }

  /** A device that reports status 256 is taken to have succeeded. */
  lemma Status256Passes(slack: nat -> uint8, r: DparmReturn<uint8>)
    requires Outcome(Delivering(STATUS_256), slack, r)
    ensures EndsWithStatus(TokensIn(Delivering(STATUS_256), slack), Token(EncodeNumber(256))) && Success(r)
  {
    SixTokens();
    hide EncodeAll, TokensOfAll, TokensIn, Outcome, HasPayload, Delivering, EncodeNumber;
    DeliveredTokens(STATUS_256, slack);
    DeliveringIsGood(STATUS_256);
    var ts := TokensIn(Delivering(STATUS_256), slack);
    assert ts[|ts| - 6..] == ts;
    StatusDecides(Delivering(STATUS_256), slack, r, 256);
  }

  // ---- The start and authenticate responses ---------------------------------------------------------------

  /** Tokens 4 and 5 of a start response read as numbers. */
  predicate BothRead(ts: seq<Token>) {
    && |ts| >= 6 && |ts[4].buf| >= 1 && |ts[5].buf| >= 1
    && ts[4].ReadsAsNumber() && ts[5].ReadsAsNumber()
  }

  /** They read as these numbers. */
  predicate Carry(ts: seq<Token>, h: uint32, t: uint32) {
    |ts| >= 6 && ReadsAs(ts[4], h) && ReadsAs(ts[5], t)
  }

  /** A call of the session manager whose arguments are the host's session number and then the TPer's. */
  function NumberingItems(methodUid: seq<uint8>, h: uint32, t: uint32): seq<Item> {
    CallItems(Bytes(SMUID_UID), methodUid) + ListItems([Number(h), Number(t)]) + TAIL_ITEMS
  }

  /** An answer of that form opens the session, and these are the numbers it is addressed by. */
  lemma NumberingOpens(methodUid: seq<uint8>, h: uint32, t: uint32, slack: nat -> uint8, r: DparmReturn<uint8>)
    requires |methodUid| == 8 && Outcome(Delivering(NumberingItems(methodUid, h, t)), slack, r)
    ensures r == DparmReturn(GOOD, 0)
    ensures var ts := TokensIn(Delivering(NumberingItems(methodUid, h, t)), slack);
            BothRead(ts) && forall h': uint32, t': uint32 :: Carry(ts, h', t') <==> h' == h && t' == t
  {
    hide EncodeAll, TokensOfAll, TokensIn, Outcome, HasPayload, Delivering, EncodeNumber, Token.Number, Token.Type,
         Token.ReadsAsNumber, NumberingItems;
    var items := NumberingItems(methodUid, h, t);
    NumberingFits(methodUid, h, t);
    NumberingTokens(methodUid, h, t);
    DeliveredTokens(items, slack);
    DeliveringIsGood(items);
    NumberRoundTrip(h);
    NumberRoundTrip(t);
    StatusDecides(Delivering(items), slack, r, 0);
  }

  lemma NumberingTokens(methodUid: seq<uint8>, h: uint32, t: uint32)
    requires |methodUid| == 8
    ensures var ts := TokensOfAll(NumberingItems(methodUid, h, t));
            && |ts| >= 6 && ts[4] == Token(EncodeNumber(h)) && ts[5] == Token(EncodeNumber(t))
            && EndsWithStatus(ts, Token(EncodeNumber(0))) && !EndsSession(ts)
  {
    hide TokensOf, TokensOfAll, Reads, EncodeBytes, CallItems, ListItems;
    TextReads(SMUID_UID);
    NumberReads(h);
    NumberReads(t);
    OneItem(Number(t));
    ConsItem(Number(h), [Number(t)]);
    assert [Number(h), Number(t)] == [Number(h)] + [Number(t)];
    CallReads(Bytes(SMUID_UID), Token(EncodeBytes(SMUID_UID)), methodUid, [Number(h), Number(t)]);
    var ts := TokensOfAll(NumberingItems(methodUid, h, t));
    assert ts[4] == ts[4..][0] && ts[5] == ts[4..][1];
    assert ts[|ts| - 6..] == ts[|ts| - 7..][1..];
  }

  lemma NumberingFits(methodUid: seq<uint8>, h: uint32, t: uint32)
    requires |methodUid| == 8
    ensures ValidItems(NumberingItems(methodUid, h, t)) && 1 <= |EncodeAll(NumberingItems(methodUid, h, t))| < 256
  {
    hide EncodeAll, EncodeNumber, EncodeBytes;
    var call, args := CallItems(Bytes(SMUID_UID), methodUid), ListItems([Number(h), Number(t)]);
    EncodeAllAppend(call + args, TAIL_ITEMS);
    EncodeAllAppend(call, args);
    CallEncodes(Bytes(SMUID_UID), methodUid);
    AtomSizes(h, SMUID_UID);
    AtomSizes(t, methodUid);
    TailIsItems();
    OneItem(Symbol(ENDLIST));
    ConsItem(Number(t), [Symbol(ENDLIST)]);
    ConsItem(Number(h), [Number(t)] + [Symbol(ENDLIST)]);
    ConsItem(Symbol(STARTLIST), [Number(h)] + ([Number(t)] + [Symbol(ENDLIST)]));
    assert args == [Symbol(STARTLIST)] + ([Number(h)] + ([Number(t)] + [Symbol(ENDLIST)]));
  }

  /** The error of a start whose session numbers do not. */
  function NumbersError(ts: seq<Token>): DparmResult {
    DparmResult(if |ts| < 6 then ILLEGAL_RESPONSE else ILLEGAL_DATA, 0, 0)
  }

  /** What authenticate makes of a response that sendCommand judged. */
  ghost predicate AuthOutcome(judged: DparmReturn<uint8>, ts: seq<Token>, r: DparmReturn<uint8>)
    requires AllFramed(ts)
  {
    if !Success(judged) then r == judged
    else if |ts| < 2 then r == Fail(ILLEGAL_RESPONSE)
    else
      assert ts[1].Framed();
      if !ts[1].ReadsAsNumber() then r == Fail(ILLEGAL_DATA)
      else exists v: uint8 :: AuthReports(judged, ts[1], v, r)
  }

  /** The outcome token has this low byte, and r says so; an over-long atom has an unspecified value. */
  ghost predicate AuthReports(judged: DparmReturn<uint8>, t: Token, v: uint8, r: DparmReturn<uint8>)
    requires t.Framed() && t.ReadsAsNumber()
  {
    && (|t.buf| <= 9 ==> v == t.Number() % 256)
    && r == if v == 0 then judged
            else DparmReturn(DparmResult(TCG_AUTH_FAILED, judged.result.sysError, judged.result.driveStatus), v)
  }

  /** What authenticate returns for an answer. */
  ghost predicate Authenticated(a: Answer, slack: nat -> uint8, r: DparmReturn<uint8>) {
    exists judged :: Outcome(a, slack, judged) && AuthOutcome(judged, TokensIn(a, slack), r)
  }

  /** Authentication succeeds exactly when sendCommand did and the outcome token has a low byte of zero. */
  lemma AuthenticatesIff(judged: DparmReturn<uint8>, ts: seq<Token>, r: DparmReturn<uint8>)
    requires AllFramed(ts) && AuthOutcome(judged, ts, r) && (|ts| >= 2 ==> 1 <= |ts[1].buf| <= 9)
    ensures Success(r) <==>
      Success(judged) && |ts| >= 2 && ts[1].ReadsAsNumber() && ts[1].Number() % 256 == 0
    ensures Success(judged) && |ts| >= 2 && ts[1].ReadsAsNumber() && !Success(r) ==>
      r.result.code == TCG_AUTH_FAILED && r.value == ts[1].Number() % 256
    ensures Success(judged) && |ts| >= 2 && !ts[1].ReadsAsNumber() ==> r.result.code == ILLEGAL_DATA
    ensures Success(judged) && |ts| < 2 ==> r.result.code == ILLEGAL_RESPONSE
  {
    hide KindOf, Token.Number, Token.ReadsAsNumber;
    if |ts| >= 2 {
      assert ts[1].Framed();
    }
  }

  /** The header addresses TPer session t, in bytes 20 to 23, from host session h, in bytes 24 to 27. */
  predicate AddressedTo(packet: seq<uint8>, h: uint32, t: uint32)
    requires |packet| >= HEADER_SIZE
  {
    packet[20..24] == BE32(t) && packet[24..28] == BE32(h)
  }

  /** It does, for the numbers that a session has. */
  predicate AddressedBy(packet: seq<uint8>, numbers: Option<(uint32, uint32)>) {
    |packet| >= HEADER_SIZE && (numbers.Some? ==> AddressedTo(packet, numbers.value.0, numbers.value.1))
  }

  /** What the header and the payload hold, the outgoing packet holds. */
  lemma PacketHolds(cmd: TcgCommandImpl)
    requires cmd.Valid()
    ensures |cmd.Packet()| >= HEADER_SIZE
    ensures forall items :: Completed(cmd, items) ==> Carries(cmd.Packet(), items)
    ensures forall h, t :: AddressedTo(cmd.Header(), h, t) ==> AddressedTo(cmd.Packet(), h, t)
    ensures cmd.Packet()[4..8] == cmd.Header()[4..8]
  {
    hide TcgCommandImpl.Valid, TcgCommandImpl.Payload, TcgCommandImpl.Header, EncodeAll, FromBE32, BE32, SectorCover;
    var p := cmd.Packet();
    assert p[AT_SUBPACKET_LENGTH..AT_SUBPACKET_LENGTH + 4]
        == cmd.Header()[AT_SUBPACKET_LENGTH..AT_SUBPACKET_LENGTH + 4];
    assert p[AT_TSN..AT_TSN + 4] == cmd.Header()[AT_TSN..AT_TSN + 4];
    assert p[AT_HSN..AT_HSN + 4] == cmd.Header()[AT_HSN..AT_HSN + 4];
    forall items | Completed(cmd, items)
      ensures Carries(p, items)
    {
      assert p[HEADER_SIZE..HEADER_SIZE + |EncodeAll(items)|] == cmd.Payload()[..|EncodeAll(items)|];
    }
  }

  lemma PacketBody(cmd: TcgCommandImpl)
    requires cmd.Valid() && cmd.Payload() != []
    ensures |cmd.Packet()| > HEADER_SIZE && cmd.Packet()[HEADER_SIZE] == cmd.Payload()[0]
  {
    hide TcgCommandImpl.Valid, TcgCommandImpl.Payload, TcgCommandImpl.Header, SectorCover;
  }

  // ---- The session object --------------------------------------------------------------------------------

  class TcgSessionImpl {
    const device: TcgDevice
    // tcgHashPassword: a function of the password and the drive's serial number.
    const hashPassword: seq<uint8> -> seq<uint8>
    // The memory behind the response buffers the session allocates.
    const slack: nat -> uint8
    var sessionOpened: bool
    var hostSessionNum: uint32
    var tperSessionNum: uint32
    var flagAutoClose: bool
    var flagNoHashPassword: bool
    var timeout: uint32
    ghost var trace: seq<Event>
    // The host and TPer session numbers the last start read from its response.
    ghost var numbers: Option<(uint32, uint32)>

    ghost predicate Valid()
      reads this
    {
      && (numbers.Some? ==> hostSessionNum == Swap32(numbers.value.0) && tperSessionNum == Swap32(numbers.value.1))
      && Lawful(trace)
      && sessionOpened == IsOpen(trace)
      && (flagAutoClose <==> Kept !in trace)
    }

    constructor (device: TcgDevice, hashPassword: seq<uint8> -> seq<uint8>, slack: nat -> uint8)
      ensures Valid() && this.device == device && this.hashPassword == hashPassword && this.slack == slack
      ensures trace == [] && numbers == None && hostSessionNum == 0 && tperSessionNum == 0
      ensures !flagNoHashPassword && timeout == 60000
    {
      this.device, this.hashPassword, this.slack := device, hashPassword, slack;
      sessionOpened, hostSessionNum, tperSessionNum := false, 0, 0;
      flagAutoClose, flagNoHashPassword, timeout := true, false, 60000;
      trace, numbers := [], None;
    }

    lemma FlagsFollowTrace()
      requires Valid()
      ensures sessionOpened == IsOpen(trace) && (flagAutoClose <==> Kept !in trace)
    {}

    /** The packet sendCommand puts on the wire: the caller's, with the session numbers and the ComID stored. */
    ghost function Addressed(header: seq<uint8>): (h: seq<uint8>)
      reads this
      requires |header| == HEADER_SIZE
      ensures |h| == HEADER_SIZE
    {
      Patched(Patched(Patched(header, AT_HSN, LE32(hostSessionNum)), AT_TSN, LE32(tperSessionNum)), AT_COM_ID,
              [device.baseComId / 256, device.baseComId % 256, 0, 0])
    }

    /** The numbers of the last start appear big-endian, although they are kept swapped and stored little-endian. */
    lemma AddressedFields(header: seq<uint8>)
      requires Valid() && |header| == HEADER_SIZE
      ensures Addressed(header)[52..56] == header[52..56]
      ensures Addressed(header)[4..8] == [device.baseComId / 256, device.baseComId % 256, 0, 0]
      ensures numbers.Some? ==> AddressedTo(Addressed(header), numbers.value.0, numbers.value.1)
    {
      hide Patched, LE32, BE32, FromBE32, Lawful, IsOpen, Swap32;
      var h1 := Patched(header, AT_HSN, LE32(hostSessionNum));
      var h2 := Patched(h1, AT_TSN, LE32(tperSessionNum));
      var h := Addressed(header);
      assert h[AT_SUBPACKET_LENGTH..AT_SUBPACKET_LENGTH + 4] == header[AT_SUBPACKET_LENGTH..AT_SUBPACKET_LENGTH + 4];
      assert h[AT_TSN..AT_TSN + 4] == h2[AT_TSN..AT_TSN + 4];
      assert h[AT_HSN..AT_HSN + 4] == h1[AT_HSN..AT_HSN + 4];
      if numbers.Some? {
        StoreSwapped(numbers.value.0);
        StoreSwapped(numbers.value.1);
      }
    }

    method SendCommand(cmd: TcgCommandImpl, resp: TcgResponseImpl) returns (r: DparmReturn<uint8>)
      requires Valid() && cmd.Valid() && resp.Valid() && cmd.buf != resp.buf
      modifies device, device.drive, device.clock, cmd.buf, resp, resp.buf
      ensures cmd.Valid() && resp.Valid()
      ensures cmd.Payload() == old(cmd.Payload()) && cmd.Header() == Addressed(old(cmd.Header()))
      ensures device.drive.sent == old(device.drive.sent) + if device.isAnySSC then [cmd.Packet()] else []
      ensures AddressedBy(cmd.Packet(), numbers)
      ensures cmd.Packet()[4..8] == [device.baseComId / 256, device.baseComId % 256, 0, 0]
      ensures forall items :: old(Completed(cmd, items)) ==> Carries(cmd.Packet(), items)
      // The result follows from the one answer of the device, and an answer that is judged was delivered.
      ensures Asked(old(device.answers), device.answers) && |device.answers| == |old(device.answers)| + 1
      ensures old(device.drive.delivered) <= device.drive.delivered
      ensures var a := device.answers[|old(device.answers)|];
        && Outcome(a, resp.slack, r)
        && (!device.isAnySSC ==> a.result == DparmResult(NOT_SUPPORTED, 0, 0))
        && (a.result.IsOk() ==> resp.tokens == TokensIn(a, resp.slack))
        && (a.result.IsOk() ==> DeliveredLast(old(device.drive.delivered), device.drive.delivered, a))
    {
      hide TcgCommandImpl.Valid, TcgCommandImpl.Packet, TcgCommandImpl.Payload, TcgCommandImpl.Header, Patched,
           FromBE32, Carries, Lawful, IsOpen, EncodeAll, AddressedTo, Judged, Committed;
      AddressedFields(cmd.Header());
      cmd.SetHSN(hostSessionNum);
      cmd.SetTSN(tperSessionNum);
      cmd.SetComId(device.baseComId);
      PacketHolds(cmd);
      var dres := device.Exec(cmd, resp, 0x01);
      if !dres.IsOk() {
        return DparmReturn(dres, 0);
      }
      r := Judge(dres, resp);
    }

    /** The part of sendCommand behind exec. */
    method Judge(dres: DparmResult, resp: TcgResponseImpl) returns (r: DparmReturn<uint8>)
      requires resp.Valid() && dres.IsOk()
      ensures Judged(dres, resp.buf[..], resp.tokens, r)
    {
      hide FromBE32, KindOf, Token.Type, Token.ReadsAsNumber, Token.Number, Reports;
      var s := resp.buf[..];
      if LengthAt(s, AT_COM_LENGTH) == 0 || LengthAt(s, AT_PACKET_LENGTH) == 0
         || LengthAt(s, AT_SUBPACKET_LENGTH) == 0 {
        return Fail(ILLEGAL_RESPONSE);
      }
      var first := resp.GetToken(0);
      if first.None? {
        return Fail(ILLEGAL_RESPONSE);
      }
      assert resp.tokens[0].Framed();
      if first.value.Type() == ENDOFSESSION {
        return Fail(OK);
      }
      resp.TokenFromEnd(1);
      resp.TokenFromEnd(5);
      resp.TokenFromEnd(4);
      var tokenA := resp.GetToken(Wrap(resp.GetTokenCount() - 1));
      var tokenB := resp.GetToken(Wrap(resp.GetTokenCount() - 5));
      if tokenA.None? || tokenB.None? {
        return Fail(ILLEGAL_RESPONSE);
      }
      assert tokenA.value.Framed() && tokenB.value.Framed();
      if tokenA.value.Type() != ENDLIST && tokenB.value.Type() == STARTLIST {
        return Fail(ILLEGAL_RESPONSE);
      }
      assert resp.tokens[|resp.tokens| - 4].Framed();
      var statusToken := resp.GetToken(Wrap(resp.GetTokenCount() - 4));
      r := JudgeStatus(dres, statusToken.value);
    }

    method JudgeStatus(dres: DparmResult, token: Token) returns (r: DparmReturn<uint8>)
      requires token.Framed() && dres.IsOk()
      ensures if token.ReadsAsNumber() then exists v: uint8 :: Reports(dres, token, v, r) else r == Fail(ILLEGAL_DATA)
    {
      var methodStatus := token.GetUint8();
      if !methodStatus.IsOk() {
        return DparmReturn(methodStatus.result, 0);
      }
      if methodStatus.value != 0 {
        r := DparmReturn(DparmResult(TCG_ERROR_STATUS, dres.sysError, dres.driveStatus), methodStatus.value);
      } else {
        r := DparmReturn(dres, 0);
      }
      assert Reports(dres, token, methodStatus.value, r);
    }

    method DontAutoClose()
      requires Valid()
      modifies `flagAutoClose, `trace
      ensures Valid() && trace == old(trace) + [Kept]
    {
      OtherKeepsLawful(trace, Kept);
      flagAutoClose := false;
      trace := trace + [Kept];
    }

    method SetNoHashPassword(noHash: bool)
      requires Valid()
      modifies `flagNoHashPassword
      ensures Valid() && flagNoHashPassword == noHash
    {
      flagNoHashPassword := noHash;
    }

    method SetTimeout(timeoutMs: uint32)
      requires Valid()
      modifies `timeout
      ensures Valid() && timeout == timeoutMs
    {
      timeout := timeoutMs;
    }

    /** The secret a challenge turns into: hashed unless hashing is off. */
    function SecretOf(challenge: seq<uint8>): seq<uint8>
      reads this
    {
      if flagNoHashPassword then challenge else hashPassword(challenge)
    }

    /** What start puts into STARTSESSION, for an encoded authority. */
    ghost function StartPayload(sp: seq<uint8>, challenge: seq<uint8>, authority: seq<uint8>): seq<Item>
      reads this
    {
      StartItems(sp, if challenge != [] && !device.isEnterprise then Some(SecretOf(challenge)) else None, authority,
                 if device.isEnterprise then Some(timeout) else None)
    }

    /** What a packet that carries this payload, if it fits, asks for. */
    lemma StartIsRead(packet: seq<uint8>, sp: seq<uint8>, challenge: seq<uint8>, authority: seq<uint8>)
      requires |sp| == 8 && |packet| >= HEADER_SIZE
      requires FitsBuffer(StartPayload(sp, challenge, authority)) ==>
        Carries(packet, StartPayload(sp, challenge, authority))
      ensures LoginIsAtom(challenge, authority) ==>
        AsksToStart(packet, sp,
                    if challenge == [] || device.isEnterprise then None
                    else Some(if flagNoHashPassword then challenge else hashPassword(challenge)),
                    authority, if device.isEnterprise then Some(timeout) else None)
    {
      hide Carries, FitsBuffer, AsksToStart, IsAtom, CallItems, ListItems, NameItems;
      var secret := if challenge != [] && !device.isEnterprise then Some(SecretOf(challenge)) else None;
      var limit := if device.isEnterprise then Some(timeout) else None;
      if secret.Some? {
        if IsAtom(authority) && |authority| <= 2049 {
          StartFits(sp, secret, authority, limit);
          StartPacketReads(packet, sp, secret, authority, limit);
        }
      } else {
        StartFits(sp, None, [], limit);
        assert StartItems(sp, None, authority, limit) == StartItems(sp, None, [], limit);
        StartPacketReads(packet, sp, secret, authority, limit);
      }
    }

    /** The STARTSESSION command. */
    method BuildStart(sp: seq<uint8>, challenge: seq<uint8>, signAuthority: seq<uint8>) returns (cmd: TcgCommandImpl)
      requires |sp| == 8
      ensures fresh(cmd) && fresh(cmd.buf) && cmd.Valid()
      ensures Completed(cmd, StartPayload(sp, challenge, signAuthority))
         <==> FitsBuffer(StartPayload(sp, challenge, signAuthority))
    {
      hide TcgCommandImpl.Valid, Completed, Built, EncodeBytes, NameItems;
      cmd := new TcgCommandImpl();
      ghost var call := Begin(cmd, SMUID_UID, METHOD_STARTSESSION);
      ghost var items := Add(cmd, Symbol(STARTLIST), call);
      items := Add(cmd, Number(HOST_SESSION_ID), items);
      items := Add(cmd, Bytes(sp), items);
      items := Add(cmd, Number(1), items);
      ghost var head := items;
      ghost var login, limit: seq<Item> := [], [];
      if challenge != [] && !device.isEnterprise {
        items := AddName(cmd, Number(0), Bytes(SecretOf(challenge)), items);
        items := AddName(cmd, Number(3), Raw(signAuthority), items);
        login := NameItems(Number(0), Bytes(SecretOf(challenge))) + NameItems(Number(3), Raw(signAuthority));
      }
      assert items == head + login;
      if device.isEnterprise {
        items := AddName(cmd, Bytes(TEXT_SESSION_TIMEOUT), Number(timeout), items);
        limit := NameItems(Bytes(TEXT_SESSION_TIMEOUT), Number(timeout));
      }
      assert items == head + login + limit;
      StartShape(call, Number(HOST_SESSION_ID), Bytes(sp), Number(1), login, limit);
      items := Add(cmd, Symbol(ENDLIST), items);
      Finish(cmd, items);
    }

    /** The part of start up to sendCommand: what is sent, and what comes back. */
    method SendStart(sp: seq<uint8>, challenge: seq<uint8>, signAuthority: seq<uint8>)
      returns (r: DparmReturn<uint8>, resp: TcgResponseImpl)
      requires Valid() && |sp| == 8
      modifies device, device.drive, device.clock
      ensures fresh(resp) && fresh(resp.buf) && resp.Valid() && resp.slack == slack
      ensures Asked(old(device.answers), device.answers) && |device.answers| == |old(device.answers)| + 1
      ensures old(device.drive.delivered) <= device.drive.delivered
      ensures var a := device.answers[|old(device.answers)|];
        && Outcome(a, slack, r)
        && (!device.isAnySSC ==> a.result == DparmResult(NOT_SUPPORTED, 0, 0))
        && (a.result.IsOk() ==> resp.tokens == TokensIn(a, slack))
        && (a.result.IsOk() ==> a in device.drive.delivered[|old(device.drive.delivered)|..])
      ensures if device.isAnySSC then StartSent(sp, challenge, signAuthority, old(device.drive.sent), device.drive.sent)
              else device.drive.sent == old(device.drive.sent)
    {
      hide TcgCommandImpl.Valid, Completed, Carries, Lawful, IsOpen, StartPayload, Outcome, TokensIn, AddressedTo,
           FitsBuffer, AsksToStart, IsAtom;
      var cmd := BuildStart(sp, challenge, signAuthority);
      resp := new TcgResponseImpl(slack);
      r := SendCommand(cmd, resp);
      StartIsRead(cmd.Packet(), sp, challenge, signAuthority);
    }

    /**
     * The one packet that SendStart sends. A receiver reads from it a start of sp, with the secret and the authority
     * unless there is no challenge or it comes later, and with the time limit of an enterprise device.
     */
    ghost predicate StartSent(sp: seq<uint8>, challenge: seq<uint8>, authority: seq<uint8>,
                              before: seq<seq<uint8>>, after: seq<seq<uint8>>)
      reads this
    {
      && before < after && |after| == |before| + 1 && AddressedBy(after[|before|], numbers)
      && (FitsBuffer(StartPayload(sp, challenge, authority)) ==>
            SentFirst(before, after, StartPayload(sp, challenge, authority)))
      && (LoginIsAtom(challenge, authority) ==>
            AsksToStart(after[|before|], sp,
                        if challenge == [] || device.isEnterprise then None
                        else Some(if flagNoHashPassword then challenge else hashPassword(challenge)),
                        authority, if device.isEnterprise then Some(timeout) else None))
    }

    /** The authority that is sent, if any, is one atom of at most 2049 bytes. */
    predicate LoginIsAtom(challenge: seq<uint8>, authority: seq<uint8>) {
      challenge != [] && !device.isEnterprise ==> IsAtom(authority) && |authority| <= 2049
    }

    /**
     * start(). judged is what sendCommand made of the answer to STARTSESSION. If that is a success, which an answer
     * that ends the session is too, then the session counts as open, even if the session numbers cannot be read.
     */
    method Start(sp: seq<uint8>, challenge: seq<uint8>, signAuthority: seq<uint8>)
      returns (r: DparmReturn<uint8>, ghost judged: DparmReturn<uint8>)
      requires Valid() && |sp| == 8
      modifies `sessionOpened, `hostSessionNum, `tperSessionNum, `trace, `numbers, device, device.drive, device.clock
      // The answer to STARTSESSION, and what it means.
      ensures Asked(old(device.answers), device.answers)
      ensures Outcome(device.answers[|old(device.answers)|], slack, judged)
      ensures !device.isAnySSC ==> device.answers[|old(device.answers)|].result == DparmResult(NOT_SUPPORTED, 0, 0)
      ensures old(device.drive.delivered) <= device.drive.delivered
      ensures device.answers[|old(device.answers)|].result.IsOk() ==>
        device.answers[|old(device.answers)|] in device.drive.delivered[|old(device.drive.delivered)|..]
      // The session opens exactly then.
      ensures Valid() && trace == old(trace) + if Success(judged) then [Accepted] else []
      // How start ends.
      ensures !Success(judged) ==> r == judged && numbers == old(numbers)
      ensures var ts := TokensIn(device.answers[|old(device.answers)|], slack);
        Success(judged) ==>
          && (!BothRead(ts) ==>
                r == DparmReturn(DparmResult(if |ts| < 6 then ILLEGAL_RESPONSE else ILLEGAL_DATA, 0, 0), 0))
          && (BothRead(ts) && !(challenge != [] && device.isEnterprise) ==> r == judged)
          && (BothRead(ts) && challenge != [] && device.isEnterprise ==>
                |device.answers| == |old(device.answers)| + 2
                && Authenticated(device.answers[|old(device.answers)| + 1], slack, r))
          && (forall h: uint32, t: uint32 :: Carry(ts, h, t) ==> numbers == Some((h, t)))
      // What is sent.
      ensures old(device.drive.sent) <= device.drive.sent
      ensures !device.isEnterprise ==>
        && |device.answers| == |old(device.answers)| + 1
        && |device.drive.sent| == |old(device.drive.sent)| + if device.isAnySSC then 1 else 0
      ensures device.isAnySSC ==>
        old(device.drive.sent) < device.drive.sent
        && AddressedBy(device.drive.sent[|old(device.drive.sent)|], old(numbers))
      ensures device.isAnySSC && old(FitsBuffer(StartPayload(sp, challenge, signAuthority))) ==>
        SentFirst(old(device.drive.sent), device.drive.sent, old(StartPayload(sp, challenge, signAuthority)))
      // A receiver reads from it a start of sp, with the secret and the authority unless there is no challenge or it
      // comes later, and with the time limit of an enterprise device.
      ensures device.isAnySSC && LoginIsAtom(challenge, signAuthority) ==>
        AsksToStart(device.drive.sent[|old(device.drive.sent)|], sp,
                    if challenge == [] || device.isEnterprise then None
                    else Some(if flagNoHashPassword then challenge else hashPassword(challenge)),
                    signAuthority, if device.isEnterprise then Some(timeout) else None)
      ensures var ts := TokensIn(device.answers[|old(device.answers)|], slack);
        Success(judged) && BothRead(ts) && challenge != [] && device.isEnterprise && device.isAnySSC ==>
          && |device.drive.sent| == |old(device.drive.sent)| + 2
          && AddressedBy(device.drive.sent[|old(device.drive.sent)| + 1], numbers)
          && (IsAtom(signAuthority) && |signAuthority| <= 2049 ==>
                AsksToAuthenticate(device.drive.sent[|old(device.drive.sent)| + 1], true, signAuthority,
                                   Some(if flagNoHashPassword then challenge else hashPassword(challenge))))
    {
      hide TcgCommandImpl.Valid, Completed, Carries, Judged, Lawful, IsOpen, StartPayload, Carry, Outcome, TokensIn,
           AddressedTo, BothRead, AuthOutcome, FitsBuffer, AsksToStart, IsAtom, LoginIsAtom, AsksToAuthenticate,
           AuthenticatePayload;
      var resp: TcgResponseImpl;
      r, resp := SendStart(sp, challenge, signAuthority);
      judged := r;
      ghost var a := device.answers[|old(device.answers)|];
      if !r.IsOk() || r.value != 0 {
        return;
      }
      SuccessIsDelivered(a, slack, judged);
      OtherKeepsLawful(trace, Accepted);
      AcceptedIsOpen(trace);
      sessionOpened := true;
      trace := trace + [Accepted];
      var illegal := ReadNumbers(resp);
      if illegal.Some? {
        r := DparmReturn(illegal.value, 0);
        return;
      }
      if challenge != [] && device.isEnterprise {
        r := Authenticate(signAuthority, challenge);
      }
    }

    /** Reads tokens 4 and 5 into the session numbers; Some is the error start returns with. */
    method ReadNumbers(resp: TcgResponseImpl) returns (illegal: Option<DparmResult>)
      requires Valid() && resp.Valid()
      modifies `hostSessionNum, `tperSessionNum, `numbers
      ensures Valid()
      ensures illegal == if BothRead(resp.tokens) then None else Some(NumbersError(resp.tokens))
      ensures |resp.tokens| < 6 ==> numbers == old(numbers)
      ensures forall h: uint32, t: uint32 :: Carry(resp.tokens, h, t) ==> numbers == Some((h, t)) && illegal == None
    {
      hide Lawful, IsOpen, Swap32, Token.ReadsAsNumber, Token.Number;
      var hsnToken, tsnToken := resp.GetToken(4), resp.GetToken(5);
      if hsnToken.None? || tsnToken.None? {
        return Some(DparmResult(ILLEGAL_RESPONSE, 0, 0));
      }
      assert resp.tokens[4].Framed() && resp.tokens[5].Framed();
      var hsn := hsnToken.value.GetUint32();
      if !hsn.IsOk() {
        return Some(hsn.result);
      }
      hostSessionNum, numbers := Swap32(hsn.value), None;
      var tsn := tsnToken.value.GetUint32();
      if !tsn.IsOk() {
        return Some(tsn.result);
      }
      tperSessionNum, numbers := Swap32(tsn.value), Some((hsn.value, tsn.value));
      illegal := None;
    }

    /** The AUTHENTICATE command, with the source's closing bracket. */
    method BuildAuthenticate(signAuthority: seq<uint8>, challenge: seq<uint8>) returns (cmd: TcgCommandImpl)
      ensures fresh(cmd) && fresh(cmd.buf) && cmd.Valid()
      ensures Completed(cmd, AuthenticatePayload(signAuthority, challenge))
         <==> FitsBuffer(AuthenticatePayload(signAuthority, challenge))
    {
      hide TcgCommandImpl.Valid, Completed, Built, EncodeBytes, NameItems, CallItems;
      cmd := new TcgCommandImpl();
      var methodUid := if device.isEnterprise then METHOD_EAUTHENTICATE else METHOD_AUTHENTICATE;
      ghost var call := Begin(cmd, THISSP_UID, methodUid);
      ghost var items := Add(cmd, Symbol(STARTLIST), call);
      items := Add(cmd, Raw(signAuthority), items);
      ghost var login: seq<Item> := [];
      ghost var head := items;
      if challenge != [] {
        var name := if device.isEnterprise then Bytes(TEXT_CHALLENGE) else Number(0);
        items := AddName(cmd, name, Bytes(SecretOf(challenge)), items);
        login := NameItems(name, Bytes(SecretOf(challenge)));
      }
      assert items == head + login;
      items := Add(cmd, Symbol(ENDNAME), items);
      Finish(cmd, items);
      AuthenticateShape(call, [Raw(signAuthority)], login, TAIL_ITEMS);
    }

    ghost function AuthenticatePayload(authority: seq<uint8>, challenge: seq<uint8>): seq<Item>
      reads this
    {
      AuthenticateItems(device.isEnterprise, authority, if challenge != [] then Some(SecretOf(challenge)) else None)
    }

    /** What a packet that carries this payload, if it fits, asks for. */
    lemma AuthenticateIsRead(packet: seq<uint8>, authority: seq<uint8>, challenge: seq<uint8>)
      requires |packet| >= HEADER_SIZE
      requires FitsBuffer(AuthenticatePayload(authority, challenge)) ==>
        Carries(packet, AuthenticatePayload(authority, challenge))
      ensures IsAtom(authority) && |authority| <= 2049 ==>
        AsksToAuthenticate(packet, device.isEnterprise, authority,
                           if challenge == [] then None
                           else Some(if flagNoHashPassword then challenge else hashPassword(challenge)))
    {
      hide Carries, FitsBuffer, AsksToAuthenticate, IsAtom, AuthenticateItems;
      if IsAtom(authority) && |authority| <= 2049 {
        var secret := if challenge != [] then Some(SecretOf(challenge)) else None;
        AuthenticateFits(device.isEnterprise, authority, secret);
        AuthenticatePacketReads(packet, device.isEnterprise, authority, secret);
      }
    }

    method Authenticate(signAuthority: seq<uint8>, challenge: seq<uint8>) returns (r: DparmReturn<uint8>)
      requires Valid()
      modifies device, device.drive, device.clock
      ensures Asked(old(device.answers), device.answers) && |device.answers| == |old(device.answers)| + 1
      ensures Authenticated(device.answers[|old(device.answers)|], slack, r)
      ensures old(device.drive.delivered) <= device.drive.delivered
      ensures device.answers[|old(device.answers)|].result.IsOk() ==>
        DeliveredLast(old(device.drive.delivered), device.drive.delivered, device.answers[|old(device.answers)|])
      ensures old(device.drive.sent) <= device.drive.sent
      ensures |device.drive.sent| == |old(device.drive.sent)| + if device.isAnySSC then 1 else 0
      ensures device.isAnySSC ==> AddressedBy(device.drive.sent[|old(device.drive.sent)|], numbers)
      ensures device.isAnySSC && FitsBuffer(AuthenticatePayload(signAuthority, challenge)) ==>
        SentFirst(old(device.drive.sent), device.drive.sent, AuthenticatePayload(signAuthority, challenge))
      ensures device.isAnySSC && IsAtom(signAuthority) && |signAuthority| <= 2049 ==>
        AsksToAuthenticate(device.drive.sent[|old(device.drive.sent)|], device.isEnterprise, signAuthority,
                           if challenge == [] then None
                           else Some(if flagNoHashPassword then challenge else hashPassword(challenge)))
    {
      hide TcgCommandImpl.Valid, Completed, Carries, Judged, Lawful, IsOpen, AuthenticatePayload, AddressedTo,
           Outcome, TokensIn, FitsBuffer, AsksToAuthenticate, IsAtom;
      var cmd := BuildAuthenticate(signAuthority, challenge);
      var resp := new TcgResponseImpl(slack);
      var judged := SendCommand(cmd, resp);
      AuthenticateIsRead(cmd.Packet(), signAuthority, challenge);
      ghost var a := device.answers[|old(device.answers)|];
      if !judged.IsOk() || judged.value != 0 {
        assert AuthOutcome(judged, TokensIn(a, slack), judged);
        return judged;
      }
      SuccessIsDelivered(a, slack, judged);
      r := JudgeOutcome(judged, resp);
    }

    /** The part of authenticate behind a successful sendCommand. */
    method JudgeOutcome(dres: DparmReturn<uint8>, resp: TcgResponseImpl) returns (r: DparmReturn<uint8>)
      requires resp.Valid() && Success(dres)
      ensures AuthOutcome(dres, resp.tokens, r)
    {
      hide Token.ReadsAsNumber, Token.Number, KindOf;
      var token := resp.GetToken(1);
      if token.None? {
        return Fail(ILLEGAL_RESPONSE);
      }
      assert resp.tokens[1].Framed();
      var outcome := token.value.GetUint8();
      if !outcome.IsOk() {
        return DparmReturn(outcome.result, 0);
      }
      if outcome.value != 0 {
        r := DparmReturn(DparmResult(TCG_AUTH_FAILED, dres.result.sysError, dres.result.driveStatus), outcome.value);
      } else {
        r := dres;
      }
      assert AuthReports(dres, resp.tokens[1], outcome.value, r);
    }

    /**
     * close(), also run on destruction: one end-of-session packet if the session is open and may be closed,
     * nothing otherwise.
     */
    method Close()
      requires Valid()
      modifies `sessionOpened, `trace, device, device.drive, device.clock
      ensures Valid() && !(flagAutoClose && sessionOpened)
      ensures old(device.drive.sent) <= device.drive.sent && old(device.drive.delivered) <= device.drive.delivered
      ensures old(flagAutoClose && sessionOpened) ==>
        trace == old(trace) + [AutoEnd] && !sessionOpened
        && EndSent(old(device.drive.sent), device.drive.sent, device.isAnySSC, numbers)
        && Asked(old(device.answers), device.answers) && |device.answers| == |old(device.answers)| + 1
        && FromDrive(device.answers[|old(device.answers)|], old(device.drive.delivered), device.drive.delivered)
      ensures !old(flagAutoClose && sessionOpened) ==>
        trace == old(trace) && sessionOpened == old(sessionOpened) && device.answers == old(device.answers)
        && device.drive.sent == old(device.drive.sent) && device.drive.delivered == old(device.drive.delivered)
    {
      hide Lawful, IsOpen;
      if flagAutoClose && sessionOpened {
        EndKeepsLawful(trace);
        EndIsNotOpen(trace);
        sessionOpened := false;
        trace := trace + [AutoEnd];
        SendEnd();
      }
    }

    method SendEnd()
      requires Valid()
      modifies device, device.drive, device.clock
      ensures old(device.drive.sent) <= device.drive.sent && old(device.drive.delivered) <= device.drive.delivered
      ensures EndSent(old(device.drive.sent), device.drive.sent, device.isAnySSC, numbers)
      ensures Asked(old(device.answers), device.answers) && |device.answers| == |old(device.answers)| + 1
      ensures FromDrive(device.answers[|old(device.answers)|], old(device.drive.delivered), device.drive.delivered)
    {
      hide TcgCommandImpl.Valid, TcgCommandImpl.Payload, TcgCommandImpl.Header, TcgCommandImpl.Packet, Judged, Carries,
           Completed, Lawful, IsOpen, Stamped, Outcome, TokensIn, AddressedTo;
      var cmd := new TcgCommandImpl();
      var resp := new TcgResponseImpl(slack);
      cmd.PosFromPayload();
      var ok := cmd.AddByteToken(ENDOFSESSION);
      ok := cmd.Complete(false);
      assert cmd.Payload()[0] == ENDOFSESSION;
      var r := SendCommand(cmd, resp);
      PacketBody(cmd);
    }
  }

  /** The device was asked since before. */
  predicate Asked(before: seq<Answer>, after: seq<Answer>) {
    before < after && |after[|before|].bytes| == MIN_BUFFER_LENGTH
  }

  /** The packet is an end-of-session command. */
  predicate SaysEnd(packet: seq<uint8>) {
    |packet| > 56 && packet[56] == 0xfa
  }

  /** An answer that is judged was delivered. */
  predicate FromDrive(a: Answer, before: seq<Answer>, after: seq<Answer>) {
    before <= after && (a.result.IsOk() ==> a in after[|before|..])
  }

  /** One end-of-session packet was sent, with the session's numbers, if anything is sent at all. */
  predicate EndSent(before: seq<seq<uint8>>, after: seq<seq<uint8>>, sends: bool, numbers: Option<(uint32, uint32)>) {
    && before <= after && |after| == |before| + (if sends then 1 else 0)
    && (sends ==> SaysEnd(after[|before|]) && AddressedBy(after[|before|], numbers))
  }

  /** Only a delivered answer can be a success. */
  lemma SuccessIsDelivered(a: Answer, slack: nat -> uint8, r: DparmReturn<uint8>)
    requires Outcome(a, slack, r) && Success(r)
    ensures a.result.IsOk()
  {}

  /** The first packet sent since before carries the items. */
  predicate SentFirst(before: seq<seq<uint8>>, after: seq<seq<uint8>>, items: seq<Item>) {
    before < after && |after[|before|]| >= HEADER_SIZE && Carries(after[|before|], items)
  }

  lemma AcceptedIsOpen(trace: seq<Event>)
    ensures IsOpen(trace + [Accepted])
  {}

  lemma AuthenticateShape(call: seq<Item>, a: seq<Item>, login: seq<Item>, tail: seq<Item>)
    ensures call + [Symbol(STARTLIST)] + a + login + [Symbol(ENDNAME)] + tail
         == call + ([Symbol(STARTLIST)] + ((a + login) + ([Symbol(ENDNAME)] + tail)))
  {}

  lemma StartShape(call: seq<Item>, a: Item, b: Item, c: Item, login: seq<Item>, limit: seq<Item>)
    ensures call + [Symbol(STARTLIST)] + [a] + [b] + [c] + login + limit + [Symbol(ENDLIST)]
         == call + ListItems([a, b, c] + login + limit)
  {}

  lemma EndIsNotOpen(trace: seq<Event>)
    ensures !IsOpen(trace + [AutoEnd])
  {}
}
