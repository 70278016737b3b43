/** Whole runs of one session: what goes over the wire from the first call to the destruction. */
module TcgRun {
  import opened DparmTypes
  import opened TcgTypes
  import opened TcgCommand
  import opened TcgResponse
  import opened TcgDevice
  import opened TcgSession

  /** What a client can do with a session. */
  datatype Op =
    | Starting(sp: seq<uint8>, challenge: seq<uint8>, authority: seq<uint8>)
    | Commanding(payload: seq<uint8>, eod: bool)   // sendCommand of a packet of its own
    | Keeping                                       // dontAutoClose
    | Ending                                        // close, also on destruction
    | Hashing(noHash: bool)
    | Waiting(timeout: uint32)

  predicate ValidOps(ops: seq<Op>) {
    forall k :: 0 <= k < |ops| ==> ops[k].Starting? ==> |ops[k].sp| == 8
  }

  /** A packet that went out, the operation that sent it, the answer, and what sendCommand made of that. */
  datatype Exchange = Exchange(op: nat, packet: seq<uint8>, answer: Answer, judged: DparmReturn<uint8>)

  predicate Starts(ops: seq<Op>, log: seq<Exchange>, k: nat) {
    k < |log| && log[k].op < |ops| && ops[log[k].op].Starting?
  }

  predicate Ends(ops: seq<Op>, log: seq<Exchange>, k: nat) {
    k < |log| && log[k].op < |ops| && ops[log[k].op].Ending?
  }

  /** A STARTSESSION that the device accepted. */
  predicate Opens(ops: seq<Op>, log: seq<Exchange>, k: nat) {
    Starts(ops, log, k) && Success(log[k].judged)
  }

  ghost predicate Sends(log: seq<Exchange>, q: nat) {
    exists k :: 0 <= k < |log| && log[k].op == q
  }

  /** Exchange k opened the session, and before operation q nothing has ended it. */
  ghost predicate OpenSince(ops: seq<Op>, log: seq<Exchange>, k: nat, q: nat) {
    && Opens(ops, log, k) && log[k].op < q
    && forall j :: k < j < |log| && log[j].op < q ==> !Ends(ops, log, j)
  }

  ghost predicate OpenBefore(ops: seq<Op>, log: seq<Exchange>, q: nat) {
    exists k :: 0 <= k < |log| && OpenSince(ops, log, k, q)
  }

  ghost predicate KeptBefore(ops: seq<Op>, q: nat) {
    exists i :: 0 <= i < q && i < |ops| && ops[i].Keeping?
  }

  // ---- The law of a run: after p operations --------------------------------------------------------------

  /** The exchanges are those of the operations, in their order, and no start or command is without one. */
  ghost predicate Chronicle(ops: seq<Op>, log: seq<Exchange>, p: nat) {
    && p <= |ops|
    && (forall k :: 0 <= k < |log| ==> log[k].op < p)
    && (forall i, j :: 0 <= i < j < |log| ==> log[i].op < log[j].op)
    && (forall q :: 0 <= q < p && (ops[q].Starting? || ops[q].Commanding?) ==> Sends(log, q))
  }

  /** close sends exactly when the session is open and was not to be kept, and what it sends says so. */
  ghost predicate EndsExactly(ops: seq<Op>, log: seq<Exchange>, p: nat)
    requires p <= |ops|
  {
    && (forall q :: 0 <= q < p && ops[q].Ending? ==>
          (Sends(log, q) <==> OpenBefore(ops, log, q) && !KeptBefore(ops, q)))
    && (forall k: nat :: Ends(ops, log, k) ==> SaysEnd(log[k].packet))
  }

  /** What the answers of starts and commands mean. */
  ghost predicate Judgements(ops: seq<Op>, log: seq<Exchange>, slack: nat -> uint8) {
    forall k :: 0 <= k < |log| && !Ends(ops, log, k) ==> Outcome(log[k].answer, slack, log[k].judged)
  }

  /** The answer of exchange k gave the session the numbers h and t, and before exchange n no other start went out. */
  ghost predicate Numbers(ops: seq<Op>, log: seq<Exchange>, slack: nat -> uint8, k: nat, n: nat, h: uint32, t: uint32) {
    && k < n <= |log| && Opens(ops, log, k) && Carry(TokensIn(log[k].answer, slack), h, t)
    && forall m :: k < m < n ==> !Starts(ops, log, m)
  }

  /** Every packet up to the next start is addressed with the numbers of the last one, whatever sends it. */
  ghost predicate Addressing(ops: seq<Op>, log: seq<Exchange>, slack: nat -> uint8) {
    forall k: nat, n: nat, h, t :: n < |log| && Numbers(ops, log, slack, k, n, h, t) ==>
      |log[n].packet| >= HEADER_SIZE && AddressedTo(log[n].packet, h, t)
  }

  ghost predicate Law(ops: seq<Op>, log: seq<Exchange>, p: nat, slack: nat -> uint8) {
    && Chronicle(ops, log, p) && EndsExactly(ops, log, p)
    && Judgements(ops, log, slack) && Addressing(ops, log, slack)
  }

  // ---- What the law says ----------------------------------------------------------------------------------

  /** An end that was sent was due. */
  lemma EndIsDue(ops: seq<Op>, log: seq<Exchange>, p: nat, j: nat)
    requires Chronicle(ops, log, p) && EndsExactly(ops, log, p) && Ends(ops, log, j)
    ensures OpenBefore(ops, log, log[j].op) && !KeptBefore(ops, log[j].op)
  {
    hide OpenBefore, KeptBefore, SaysEnd;
    assert Sends(log, log[j].op);
  }

  /** Before every automatic end, and between any two, the device has accepted a start. */
  lemma EndsAreSeparated(ops: seq<Op>, log: seq<Exchange>, p: nat, slack: nat -> uint8, j: nat) returns (k: nat)
    requires Law(ops, log, p, slack) && Ends(ops, log, j)
    ensures k < j && Opens(ops, log, k)
    ensures forall i: nat :: i < j && Ends(ops, log, i) ==> i < k
  {
    hide EndsExactly, KeptBefore, Judgements, Addressing;
    EndIsDue(ops, log, p, j);
    k :| 0 <= k < |log| && OpenSince(ops, log, k, log[j].op);
  }

  /** None is sent after dontAutoClose. */
  lemma NoEndAfterKeep(ops: seq<Op>, log: seq<Exchange>, p: nat, slack: nat -> uint8, i: nat, j: nat)
    requires Law(ops, log, p, slack) && Ends(ops, log, j)
    requires i < |ops| && ops[i].Keeping?
    ensures log[j].op < i
  {
    hide EndsExactly, OpenBefore, Judgements, Addressing;
    EndIsDue(ops, log, p, j);
  }

  /** A second close in a row sends nothing. */
  lemma CloseIsIdempotent(ops: seq<Op>, log: seq<Exchange>, p: nat, slack: nat -> uint8, q: nat)
    requires Law(ops, log, p, slack) && q + 1 < p && ops[q].Ending? && ops[q + 1].Ending?
    ensures !Sends(log, q + 1)
  {
    hide KeptBefore, Judgements, Addressing, OpenSince, Sends;
    KeptAfter(ops, q);
    if OpenBefore(ops, log, q + 1) {
      var k :| 0 <= k < |log| && OpenSince(ops, log, k, q + 1);
      NotEndedSince(ops, log, p, k, q);
    }
  }

  lemma NotEndedSince(ops: seq<Op>, log: seq<Exchange>, p: nat, k: nat, q: nat)
    requires Chronicle(ops, log, p) && q < p && ops[q].Ending? && OpenSince(ops, log, k, q + 1)
    ensures OpenSince(ops, log, k, q) && !Sends(log, q)
  {
    assert forall i :: 0 <= i < |log| && log[i].op == q ==> Ends(ops, log, i);
  }

  // ---- Keeping the law ------------------------------------------------------------------------------------

  lemma NotYetSent(ops: seq<Op>, log: seq<Exchange>, p: nat)
    requires Chronicle(ops, log, p)
    ensures !Sends(log, p)
  {}

  /** An operation that sends nothing. */
  lemma SilentStep(ops: seq<Op>, log: seq<Exchange>, p: nat, slack: nat -> uint8)
    requires Law(ops, log, p, slack) && p < |ops| && !ops[p].Starting? && !ops[p].Commanding?
    requires ops[p].Ending? ==> !(OpenBefore(ops, log, p) && !KeptBefore(ops, p))
    ensures Law(ops, log, p + 1, slack)
    ensures OpenBefore(ops, log, p + 1) <==> OpenBefore(ops, log, p)
  {
    hide OpenBefore, KeptBefore, Judgements, Addressing;
    NotYetSent(ops, log, p);
    OpenStays(ops, log, p);
  }

  lemma OpenStays(ops: seq<Op>, log: seq<Exchange>, p: nat)
    requires Chronicle(ops, log, p)
    ensures OpenBefore(ops, log, p + 1) <==> OpenBefore(ops, log, p)
  {
    if OpenBefore(ops, log, p) {
      var k :| 0 <= k < |log| && OpenSince(ops, log, k, p);
      assert OpenSince(ops, log, k, p + 1);
    }
    if OpenBefore(ops, log, p + 1) {
      var k :| 0 <= k < |log| && OpenSince(ops, log, k, p + 1);
      assert OpenSince(ops, log, k, p);
    }
  }

  /** A new exchange changes nothing for the operations up to its own. */
  lemma PastIsFixed(ops: seq<Op>, log: seq<Exchange>, p: nat, e: Exchange, q: nat)
    requires Chronicle(ops, log, p) && e.op == p && q <= p
    ensures OpenBefore(ops, log + [e], q) <==> OpenBefore(ops, log, q)
    ensures q < p ==> (Sends(log + [e], q) <==> Sends(log, q))
  {
    var more := log + [e];
    if OpenBefore(ops, log, q) {
      var k :| 0 <= k < |log| && OpenSince(ops, log, k, q);
      assert more[k] == log[k];
      assert forall j :: k < j < |more| && more[j].op < q ==> j < |log| && more[j] == log[j];
      assert OpenSince(ops, more, k, q);
    }
    if OpenBefore(ops, more, q) {
      var k :| 0 <= k < |more| && OpenSince(ops, more, k, q);
      assert k < |log| && more[k] == log[k];
      assert forall j :: k < j < |log| ==> more[j] == log[j] && (Ends(ops, more, j) <==> Ends(ops, log, j));
      assert OpenSince(ops, log, k, q);
    }
    if Sends(log, q) {
      var k :| 0 <= k < |log| && log[k].op == q;
      assert more[k].op == q;
    }
    if q < p && Sends(more, q) {
      var k :| 0 <= k < |more| && more[k].op == q;
      assert log[k].op == q;
    }
  }

  /** An operation that sends a packet. */
  lemma SendingStep(ops: seq<Op>, log: seq<Exchange>, p: nat, slack: nat -> uint8, e: Exchange,
                    numbers: Option<(uint32, uint32)>)
    requires Law(ops, log, p, slack) && p < |ops| && e.op == p
    requires ops[p].Starting? || ops[p].Commanding? || ops[p].Ending?
    requires ops[p].Ending? ==> OpenBefore(ops, log, p) && !KeptBefore(ops, p) && SaysEnd(e.packet)
    requires !ops[p].Ending? ==> Outcome(e.answer, slack, e.judged)
    requires Remembered(ops, log, slack, numbers) && AddressedBy(e.packet, numbers)
    ensures Law(ops, log + [e], p + 1, slack)
  {
    ChronicleGrows(ops, log, p, e);
    EndsGrow(ops, log, p, e);
    AddressingGrows(ops, log, slack, e, numbers);
    assert Judgements(ops, log + [e], slack) by {
      hide Outcome;
      forall k | 0 <= k < |log| + 1 && !Ends(ops, log + [e], k)
        ensures Outcome((log + [e])[k].answer, slack, (log + [e])[k].judged)
      {
        if k < |log| {
          assert !Ends(ops, log, k);
        }
      }
    }
  }

  lemma ChronicleGrows(ops: seq<Op>, log: seq<Exchange>, p: nat, e: Exchange)
    requires Chronicle(ops, log, p) && p < |ops| && e.op == p
    ensures Chronicle(ops, log + [e], p + 1)
  {
    var more := log + [e];
    assert more[|log|].op == p;
    forall q | 0 <= q < p + 1 && (ops[q].Starting? || ops[q].Commanding?)
      ensures Sends(more, q)
    {
      if q < p {
        PastIsFixed(ops, log, p, e, q);
      }
    }
  }

  lemma EndsGrow(ops: seq<Op>, log: seq<Exchange>, p: nat, e: Exchange)
    requires Chronicle(ops, log, p) && EndsExactly(ops, log, p) && p < |ops| && e.op == p
    requires ops[p].Ending? ==> OpenBefore(ops, log, p) && !KeptBefore(ops, p) && SaysEnd(e.packet)
    ensures EndsExactly(ops, log + [e], p + 1)
  {
    hide OpenBefore, KeptBefore, SaysEnd;
    var more := log + [e];
    assert more[|log|].op == p;
    forall q | 0 <= q < p + 1 && ops[q].Ending?
      ensures Sends(more, q) <==> OpenBefore(ops, more, q) && !KeptBefore(ops, q)
    {
      PastIsFixed(ops, log, p, e, q);
    }
    forall k: nat | Ends(ops, more, k)
      ensures SaysEnd(more[k].packet)
    {
      if k < |log| {
        assert Ends(ops, log, k);
      }
    }
  }

  /** The session has the numbers of the last start, if that gave it any. */
  ghost predicate Remembered(ops: seq<Op>, log: seq<Exchange>, slack: nat -> uint8, numbers: Option<(uint32, uint32)>) {
    forall k: nat, h, t :: Numbers(ops, log, slack, k, |log|, h, t) ==> numbers == Some((h, t))
  }

  lemma NumbersArePast(ops: seq<Op>, log: seq<Exchange>, slack: nat -> uint8, e: Exchange, k: nat, n: nat, h: uint32,
                       t: uint32)
    requires n <= |log|
    ensures Numbers(ops, log + [e], slack, k, n, h, t) <==> Numbers(ops, log, slack, k, n, h, t)
  {
    hide TokensIn, Carry;
    var more := log + [e];
    assert forall m :: 0 <= m < |log| ==> more[m] == log[m] && (Starts(ops, more, m) <==> Starts(ops, log, m));
  }

  lemma AddressingGrows(ops: seq<Op>, log: seq<Exchange>, slack: nat -> uint8, e: Exchange,
                        numbers: Option<(uint32, uint32)>)
    requires Addressing(ops, log, slack) && Remembered(ops, log, slack, numbers) && AddressedBy(e.packet, numbers)
    ensures Addressing(ops, log + [e], slack)
  {
    hide Numbers, AddressedTo;
    var more := log + [e];
    forall k: nat, n: nat, h, t | n < |more| && Numbers(ops, more, slack, k, n, h, t)
      ensures |more[n].packet| >= HEADER_SIZE && AddressedTo(more[n].packet, h, t)
    {
      NumbersArePast(ops, log, slack, e, k, n, h, t);
    }
  }

  /** After a start the session has its numbers; no other operation changes them. */
  lemma StillRemembered(ops: seq<Op>, log: seq<Exchange>, slack: nat -> uint8, e: Exchange,
                        before: Option<(uint32, uint32)>, after: Option<(uint32, uint32)>)
    requires Remembered(ops, log, slack, before) && e.op < |ops|
    requires if ops[e.op].Starting?
             then forall h, t :: Success(e.judged) && Carry(TokensIn(e.answer, slack), h, t) ==> after == Some((h, t))
             else after == before
    ensures Remembered(ops, log + [e], slack, after)
  {
    hide TokensIn, Carry;
    var more, n := log + [e], |log|;
    assert more[n] == e;
    forall k: nat, h, t | Numbers(ops, more, slack, k, |more|, h, t)
      ensures after == Some((h, t))
    {
      if k < n {
        assert !Starts(ops, more, n);
        assert Numbers(ops, more, slack, k, n, h, t);
        NumbersArePast(ops, log, slack, e, k, n, h, t);
      }
    }
  }

  /** How an exchange changes whether the session is open. */
  lemma OpenAfter(ops: seq<Op>, log: seq<Exchange>, p: nat, e: Exchange)
    requires Chronicle(ops, log, p) && p < |ops| && e.op == p
    ensures OpenBefore(ops, log + [e], p + 1) <==>
      if ops[p].Ending? then false
      else OpenBefore(ops, log, p) || (ops[p].Starting? && Success(e.judged))
  {
    var more, n := log + [e], |log|;
    assert more[n] == e;
    if ops[p].Ending? {
      assert Ends(ops, more, n);
    } else {
      if OpenBefore(ops, more, p + 1) {
        var k :| 0 <= k < |more| && OpenSince(ops, more, k, p + 1);
        if k < n {
          assert OpenSince(ops, more, k, p);
          PastIsFixed(ops, log, p, e, p);
        }
      }
      if OpenBefore(ops, log, p) {
        PastIsFixed(ops, log, p, e, p);
        var k :| 0 <= k < |more| && OpenSince(ops, more, k, p);
        assert OpenSince(ops, more, k, p + 1);
      }
      if ops[p].Starting? && Success(e.judged) {
        assert OpenSince(ops, more, n, p + 1);
      }
    }
  }

  lemma KeptAfter(ops: seq<Op>, p: nat)
    requires p < |ops|
    ensures KeptBefore(ops, p + 1) <==> KeptBefore(ops, p) || ops[p].Keeping?
  {
    if KeptBefore(ops, p) {
      var i :| 0 <= i < p && i < |ops| && ops[i].Keeping?;
      assert i < p + 1;
    }
  }

  // ---- The run itself -------------------------------------------------------------------------------------

  function Packets(log: seq<Exchange>): seq<seq<uint8>> {
    seq(|log|, k requires 0 <= k < |log| => log[k].packet)
  }

  function Answers(log: seq<Exchange>): seq<Answer> {
    seq(|log|, k requires 0 <= k < |log| => log[k].answer)
  }

  /** Every good answer was delivered. */
  predicate AllFromDrive(log: seq<Exchange>, before: seq<Answer>, after: seq<Answer>) {
    before <= after && forall k :: 0 <= k < |log| ==> FromDrive(log[k].answer, before, after)
  }

  lemma DeliveredGrows(log: seq<Exchange>, es: seq<Exchange>, first: seq<Answer>, before: seq<Answer>,
                       after: seq<Answer>)
    requires AllFromDrive(log, first, before) && AllFromDrive(es, before, after)
    ensures AllFromDrive(log + es, first, after)
  {
    forall k | 0 <= k < |log + es|
      ensures FromDrive((log + es)[k].answer, first, after)
    {
      var a := (log + es)[k].answer;
      if a.result.IsOk() {
        if k < |log| {
          var i :| 0 <= i < |before| - |first| && before[|first|..][i] == a;
          assert after[|first|..][i] == a;
        } else {
          var i :| 0 <= i < |after| - |before| && after[|before|..][i] == a;
          assert after[|first|..][i + |before| - |first|] == a;
        }
      }
    }
  }

  /** The session stands as the exchanges so far say. */
  ghost predicate InStep(session: TcgSessionImpl, ops: seq<Op>, log: seq<Exchange>, p: nat)
    reads session
  {
    && session.Valid() && Law(ops, log, p, session.slack)
    && (session.sessionOpened <==> OpenBefore(ops, log, p))
    && (session.flagAutoClose <==> !KeptBefore(ops, p))
    && Remembered(ops, log, session.slack, session.numbers)
  }

  /** One operation; es is its exchange, if it has one. */
  method Perform(session: TcgSessionImpl, op: Op, ghost p: nat) returns (ghost es: seq<Exchange>)
    requires session.Valid() && session.device.isAnySSC && !session.device.isEnterprise
    requires op.Starting? ==> |op.sp| == 8
    modifies session, session.device, session.device.drive, session.device.clock
    ensures session.Valid() && |es| <= 1
    ensures session.device.drive.sent == old(session.device.drive.sent) + Packets(es)
    ensures session.device.answers == old(session.device.answers) + Answers(es)
    ensures AllFromDrive(es, old(session.device.drive.delivered), session.device.drive.delivered)
    ensures es != [] ==> es[0].op == p && AddressedBy(es[0].packet, old(session.numbers))
    ensures if op.Starting? || op.Commanding? then es != [] && Outcome(es[0].answer, session.slack, es[0].judged)
            else if op.Ending? then (es != [] <==> old(session.flagAutoClose && session.sessionOpened))
                                    && (es != [] ==> SaysEnd(es[0].packet))
            else es == []
    ensures session.sessionOpened ==
      if op.Starting? then es != [] && (old(session.sessionOpened) || Success(es[0].judged))
      else if op.Ending? then old(session.sessionOpened) && es == []
      else old(session.sessionOpened)
    ensures session.flagAutoClose == (old(session.flagAutoClose) && !op.Keeping?)
    ensures if op.Starting?
            then es != []
                 && forall h, t :: Success(es[0].judged) && Carry(TokensIn(es[0].answer, session.slack), h, t) ==>
                      session.numbers == Some((h, t))
            else session.numbers == old(session.numbers)
  {
    hide TcgSessionImpl.Valid, Outcome, TokensIn, Carry, AddressedTo, SaysEnd, BothRead, Authenticated,
         TcgSessionImpl.StartPayload, IsOpen, TcgCommandImpl.Valid, TcgCommandImpl.Packet, TcgCommandImpl.Payload,
         TcgCommandImpl.Header;
    ghost var n, m := |session.device.drive.sent|, |session.device.answers|;
    session.FlagsFollowTrace();
    es := [];
    ghost var judged := DparmReturn(DparmResult(OK, 0, 0), 0);
    match op {
      case Starting(sp, challenge, authority) =>
        var r;
        r, judged := session.Start(sp, challenge, authority);
        AcceptedIsOpen(old(session.trace));
        assert old(session.trace) + [] == old(session.trace);
      case Commanding(payload, eod) =>
        judged := SendOwn(session, payload, eod);
      case Keeping =>
        session.DontAutoClose();
        assert Kept in session.trace;
      case Ending =>
        session.Close();
      case Hashing(noHash) =>
        session.SetNoHashPassword(noHash);
      case Waiting(timeout) =>
        session.SetTimeout(timeout);
    }
    session.FlagsFollowTrace();
    if |session.device.drive.sent| > n {
      es := [Exchange(p, session.device.drive.sent[n], session.device.answers[m], judged)];
    }
  }

  /** sendCommand of a packet that the caller builds. */
  method SendOwn(session: TcgSessionImpl, payload: seq<uint8>, eod: bool) returns (r: DparmReturn<uint8>)
    requires session.Valid() && session.device.isAnySSC
    modifies session.device, session.device.drive, session.device.clock
    ensures |session.device.drive.sent| == |old(session.device.drive.sent)| + 1
    ensures old(session.device.drive.sent) < session.device.drive.sent
    ensures AddressedBy(session.device.drive.sent[|old(session.device.drive.sent)|], session.numbers)
    ensures Asked(old(session.device.answers), session.device.answers)
    ensures |session.device.answers| == |old(session.device.answers)| + 1
    ensures Outcome(session.device.answers[|old(session.device.answers)|], session.slack, r)
    ensures FromDrive(session.device.answers[|old(session.device.answers)|],
                      old(session.device.drive.delivered), session.device.drive.delivered)
  {
    hide TcgSessionImpl.Valid, Outcome, TokensIn, AddressedTo, TcgCommandImpl.Valid, TcgCommandImpl.Packet,
         TcgCommandImpl.Payload, TcgCommandImpl.Header;
    var cmd := new TcgCommandImpl();
    var ok := cmd.AddRawToken(payload);
    ok := cmd.Complete(eod);
    var resp := new TcgResponseImpl(session.slack);
    r := session.SendCommand(cmd, resp);
  }

  /** The law after one more operation. */
  lemma Advance(ops: seq<Op>, log: seq<Exchange>, p: nat, slack: nat -> uint8, es: seq<Exchange>,
                before: Option<(uint32, uint32)>, after: Option<(uint32, uint32)>)
    requires Law(ops, log, p, slack) && p < |ops| && Remembered(ops, log, slack, before) && |es| <= 1
    requires es != [] ==> es[0].op == p && AddressedBy(es[0].packet, before)
    requires if ops[p].Starting? || ops[p].Commanding? then es != [] && Outcome(es[0].answer, slack, es[0].judged)
             else if ops[p].Ending? then (es != [] <==> OpenBefore(ops, log, p) && !KeptBefore(ops, p))
                                         && (es != [] ==> SaysEnd(es[0].packet))
             else es == []
    requires if ops[p].Starting?
             then es != [] && forall h, t :: Success(es[0].judged) && Carry(TokensIn(es[0].answer, slack), h, t) ==>
                    after == Some((h, t))
             else after == before
    ensures Law(ops, log + es, p + 1, slack) && Remembered(ops, log + es, slack, after)
    ensures OpenBefore(ops, log + es, p + 1) ==
      if ops[p].Starting? then OpenBefore(ops, log, p) || Success(es[0].judged)
      else if ops[p].Ending? then OpenBefore(ops, log, p) && es == []
      else OpenBefore(ops, log, p)
    ensures KeptBefore(ops, p + 1) <==> KeptBefore(ops, p) || ops[p].Keeping?
  {
    hide OpenBefore, KeptBefore, Outcome, TokensIn, Carry, SaysEnd, AddressedBy, Remembered;
    KeptAfter(ops, p);
    if es == [] {
      assert log + es == log;
      SilentStep(ops, log, p, slack);
    } else {
      assert log + es == log + [es[0]];
      SendingStep(ops, log, p, slack, es[0], before);
      StillRemembered(ops, log, slack, es[0], before, after);
      OpenAfter(ops, log, p, es[0]);
    }
  }

  /**
   * A session of an Opal device, from its creation through any operations to its destruction: the packets and answers
   * of the run are an exchange log that obeys the law.
   */
  method Run(device: TcgDevice, hashPassword: seq<uint8> -> seq<uint8>, slack: nat -> uint8, ops: seq<Op>)
    returns (ghost log: seq<Exchange>)
    requires device.isAnySSC && !device.isEnterprise && ValidOps(ops)
    modifies device, device.drive, device.clock
    ensures Law(ops + [Ending], log, |ops| + 1, slack)
    ensures device.drive.sent == old(device.drive.sent) + Packets(log)
    ensures device.answers == old(device.answers) + Answers(log)
    ensures AllFromDrive(log, old(device.drive.delivered), device.drive.delivered)
  {
    hide TcgSessionImpl.Valid, Law, OpenBefore, KeptBefore, Remembered, Outcome, TokensIn, Carry, SaysEnd, AddressedTo,
         FromDrive;
    var session := new TcgSessionImpl(device, hashPassword, slack);
    var all := ops + [Ending];
    log := [];
    Beginning(all, slack);
    session.FlagsFollowTrace();
    var i := 0;
    while i < |all|
      invariant i <= |all| && session.device == device && session.slack == slack && fresh(session)
      invariant InStep(session, all, log, i)
      invariant device.drive.sent == old(device.drive.sent) + Packets(log)
      invariant device.answers == old(device.answers) + Answers(log)
      invariant AllFromDrive(log, old(device.drive.delivered), device.drive.delivered)
    {
      ghost var numbers, delivered := session.numbers, device.drive.delivered;
      ghost var es := Perform(session, all[i], i);
      Advance(all, log, i, slack, es, numbers, session.numbers);
      DeliveredGrows(log, es, old(device.drive.delivered), delivered, device.drive.delivered);
      assert Packets(log + es) == Packets(log) + Packets(es);
      assert Answers(log + es) == Answers(log) + Answers(es);
      log := log + es;
      i := i + 1;
    }
  }

  lemma Beginning(ops: seq<Op>, slack: nat -> uint8)
    ensures Law(ops, [], 0, slack) && !OpenBefore(ops, [], 0) && !KeptBefore(ops, 0)
    ensures Remembered(ops, [], slack, None) && !IsOpen([])
  {}
}
