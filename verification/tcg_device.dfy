/** TcgDeviceGeneric::exec of src/tcg/tcg_device_general.cc: send once, then poll with a timeout. */
module TcgDevice {
  import opened DparmTypes
  import opened TcgTypes
  import opened TcgToken
  import opened TcgCodec
  import opened TcgCommand
  import opened TcgResponse

  // steady_clock counts nanoseconds.
  const MS: nat := 1_000_000
  const TIMEOUT: nat := 10000 * MS
  const POLL_SLEEP: nat := 25 * MS
  const MAX_RECEIVES: nat := 402

  /** The bytes say that data is outstanding but none can be transferred yet. */
  predicate Pending(s: seq<uint8>)
    requires |s| == MIN_BUFFER_LENGTH
  {
    s[AT_OUTSTANDING..AT_OUTSTANDING + 4] != [0, 0, 0, 0] && s[AT_MIN_TRANSFER..AT_MIN_TRANSFER + 4] == [0, 0, 0, 0]
  }

  /** How a receive or an exec ended, and what the receive buffer then held. */
  datatype Answer = Answer(result: DparmResult, bytes: seq<uint8>)

  /** The last of what was delivered since before. */
  predicate DeliveredLast(before: seq<Answer>, after: seq<Answer>, a: Answer) {
    before < after && a == after[|after| - 1]
  }

  /** Something was delivered since before, and all of it but the last was good and still pending. */
  predicate PendingTillLast(before: seq<Answer>, after: seq<Answer>) {
    before < after && forall k :: |before| <= k < |after| - 1 ==> StillPending(after[k])
  }

  /** A good answer whose header says so in numbers: bytes 8 to 11 are not zero, bytes 12 to 15 are. */
  predicate StillPending(a: Answer) {
    a.result.IsOk() && |a.bytes| == 2048 && FromBE32(a.bytes[8..12]) != 0 && FromBE32(a.bytes[12..16]) == 0
  }

  /** The test that exec makes says just that. */
  lemma PendingIff(r: DparmResult, s: seq<uint8>)
    requires |s| == MIN_BUFFER_LENGTH && r.IsOk()
    ensures Pending(s) <==> StillPending(Answer(r, s))
  {
    FieldIsZero(s[8..12]);
    FieldIsZero(s[12..16]);
  }

  lemma GoodWhilePending(a: Answer)
    ensures StillPending(a) ==> a.result.IsOk()
  {}

  lemma FieldIsZero(f: seq<uint8>)
    requires |f| == 4
    ensures f == [0, 0, 0, 0] <==> FromBE32(f) == 0
  {}

  /** The data of a full buffer, by its length field at byte 52. */
  lemma CommittedData(s: seq<uint8>, slack: nat -> uint8)
    requires |s| == MIN_BUFFER_LENGTH
    ensures var end := 56 + FromBE32(s[52..56]);
            Committed(s, slack) == if end > 2048 then None else Some(Tokenize(s, slack, 56, end))
  {
    hide Tokenize, FromBE32;
  }

  /**
   * The drive behind doSecurityCommand: it may answer anything. The ghost fields log the packets sent to it with the
   * results of sending, and what it delivered.
   */
  class Drive {
    ghost var sent: seq<seq<uint8>>
    ghost var replies: seq<DparmResult>
    ghost var delivered: seq<Answer>

    constructor ()
    {
    }

    method Send(protocol: uint8, comId: uint16, data: seq<uint8>) returns (r: DparmResult)
      modifies this
      ensures sent == old(sent) + [data] && replies == old(replies) + [r] && delivered == old(delivered)
    {
      r := *;
      sent, replies := sent + [data], replies + [r];
    }

    method Receive(protocol: uint8, comId: uint16, buf: array<uint8>) returns (r: DparmResult)
      modifies this, buf
      ensures sent == old(sent) && replies == old(replies) && delivered == old(delivered) + [Answer(r, buf[..])]
    {
      r := *;
      modify buf;
      delivered := delivered + [Answer(r, buf[..])];
    }
  }

  /** A monotone clock; sleeping takes at least as long as asked. */
  class Clock {
    var now: nat

    constructor ()
    {
    }

    method Now() returns (t: nat)
      modifies this
      ensures t == now >= old(now)
    {
      var elapsed: int := *;
      now := now + if elapsed >= 0 then elapsed else 0;
      t := now;
    }

    method SleepFor(ns: nat)
      modifies this
      ensures now >= old(now) + ns
    {
      var oversleep: int := *;
      now := now + ns + if oversleep >= 0 then oversleep else 0;
    }
  }

  /**
   * How the last delivery decides the result and the tokens: a good one that does not keep the drive pending is
   * committed, if the data that its length at byte 52 announces ends within the buffer.
   */
  predicate Decides(last: Answer, bytes: seq<uint8>, slack: nat -> uint8, before: seq<Token>, r: DparmResult,
                    after: seq<Token>)
  {
    && last.bytes == bytes && |bytes| == 2048
    && if !last.result.IsOk() then r == last.result && after == before
       else if StillPending(last) then
         r == DparmResult(OPERATION_TIMEOUT, 0, last.result.driveStatus) && after == before
       else
         var end := 56 + FromBE32(bytes[52..56]);
         if end > 2048 then r == DparmResult(ILLEGAL_DATA, 0, 0) && after == before
         else r == last.result && after == Tokenize(bytes, slack, 56, end)
  }

  class TcgDevice {
    const drive: Drive
    const clock: Clock
    // Opal devices are an SSC; the generic and the enterprise device are not.
    const isAnySSC: bool
    const isEnterprise: bool
    const baseComId: uint16
    // One answer for every exec.
    ghost var answers: seq<Answer>

    constructor (drive: Drive, clock: Clock, isAnySSC: bool, isEnterprise: bool, baseComId: uint16)
      ensures this.drive == drive && this.clock == clock
      ensures this.isAnySSC == isAnySSC && this.isEnterprise == isEnterprise && this.baseComId == baseComId
    {
      this.drive, this.clock := drive, clock;
      this.isAnySSC, this.isEnterprise, this.baseComId := isAnySSC, isEnterprise, baseComId;
    }

    method Exec(cmd: TcgCommandImpl, resp: TcgResponseImpl, protocol: uint8) returns (r: DparmResult)
      requires cmd.Valid() && resp.Valid() && cmd.buf != resp.buf
      modifies this, drive, clock, resp, resp.buf
      ensures resp.Valid() && answers == old(answers) + [Answer(r, resp.buf[..])]
      // Nothing happens without an SSC; otherwise the packet is sent, once.
      ensures drive.sent == old(drive.sent) + if isAnySSC then [cmd.Packet()] else []
      ensures !isAnySSC ==> r == DparmResult(NOT_SUPPORTED, 0, 0) && resp.tokens == old(resp.tokens)
                            && drive.replies == old(drive.replies) && drive.delivered == old(drive.delivered)
      // A failed send ends the call.
      ensures isAnySSC ==> |drive.replies| == |old(drive.replies)| + 1 && old(drive.replies) < drive.replies
      ensures isAnySSC && !drive.replies[|old(drive.replies)|].IsOk() ==>
        r == drive.replies[|old(drive.replies)|]
        && drive.delivered == old(drive.delivered) && resp.tokens == old(resp.tokens)
      // Otherwise the drive is polled, until the first answer that failed or is ready, or the timeout.
      ensures old(drive.delivered) <= drive.delivered && |drive.delivered| <= |old(drive.delivered)| + 402
      ensures isAnySSC && drive.replies[|old(drive.replies)|].IsOk() ==>
        PendingTillLast(old(drive.delivered), drive.delivered)
        && Decides(drive.delivered[|drive.delivered| - 1], resp.buf[..], resp.slack, old(resp.tokens), r, resp.tokens)
        && (StillPending(drive.delivered[|drive.delivered| - 1]) ==> clock.now > old(clock.now) + 10_000_000_000)
      // A good result comes with the tokens of what was delivered last.
      ensures r.IsOk() ==> isAnySSC && DeliveredLast(old(drive.delivered), drive.delivered, Answer(r, resp.buf[..]))
                           && Committed(resp.buf[..], resp.slack) == Some(resp.tokens)
    {
      hide TcgCommandImpl.Valid, TcgCommandImpl.Packet, Committed, Pending, StillPending, FromBE32, Tokenize;
      var beginAt := clock.Now();
      if !isAnySSC {
        r := DparmResult(NOT_SUPPORTED, 0, 0);
        answers := answers + [Answer(r, resp.buf[..])];
        return;
      }
      var size := cmd.GetCmdSize();
      cmd.PacketIsPrefix(size);
      r := drive.Send(protocol, baseComId, cmd.buf[..size]);
      if !r.IsOk() {
        answers := answers + [Answer(r, resp.buf[..])];
        return;
      }
      r := Poll(resp, protocol, beginAt);
      if !r.IsOk() {
        answers := answers + [Answer(r, resp.buf[..])];
        return;
      }
      PendingIff(r, resp.buf[..]);
      if Pending(resp.buf[..]) {
        r := DparmResult(OPERATION_TIMEOUT, 0, r.driveStatus);
        answers := answers + [Answer(r, resp.buf[..])];
        return;
      }
      ghost var bytes := resp.buf[..];
      CommittedData(bytes, resp.slack);
      var commitResult := resp.Commit();
      if !commitResult.IsOk() {
        r := commitResult;
      }
      answers := answers + [Answer(r, resp.buf[..])];
    }

    /** The do-while loop: sleep, clear, receive, until the answer is ready, fails, or time has run out. */
    method Poll(resp: TcgResponseImpl, protocol: uint8, beginAt: nat) returns (r: DparmResult)
      requires resp.Valid() && beginAt == clock.now
      modifies drive, clock, resp.buf
      ensures resp.Valid()
      ensures drive.sent == old(drive.sent) && drive.replies == old(drive.replies)
      ensures |drive.delivered| <= |old(drive.delivered)| + 402
      ensures PendingTillLast(old(drive.delivered), drive.delivered)
      ensures DeliveredLast(old(drive.delivered), drive.delivered, Answer(r, resp.buf[..]))
      ensures clock.now >= old(clock.now)
      ensures StillPending(Answer(r, resp.buf[..])) ==> clock.now > beginAt + 10_000_000_000
    {
      hide Pending, StillPending;
      ghost var polls := 0;
      var again := true;
      r := DparmResult(OK, 0, 0);
      while again
        invariant resp.Valid() && drive.sent == old(drive.sent) && drive.replies == old(drive.replies)
        invariant old(drive.delivered) <= drive.delivered
        invariant |drive.delivered| == |old(drive.delivered)| + polls <= |old(drive.delivered)| + MAX_RECEIVES
        invariant clock.now >= beginAt + polls * POLL_SLEEP
        invariant again ==> polls < MAX_RECEIVES
        invariant forall k :: |old(drive.delivered)| <= k < |drive.delivered| - 1 ==> StillPending(drive.delivered[k])
        invariant polls > 0 ==> drive.delivered[|drive.delivered| - 1] == Answer(r, resp.buf[..]) && r.IsOk()
        invariant polls > 0 && again ==> StillPending(drive.delivered[|drive.delivered| - 1])
        invariant !again && StillPending(Answer(r, resp.buf[..])) ==> clock.now > beginAt + TIMEOUT
        invariant !again ==> polls > 0
        decreases MAX_RECEIVES - polls, again
      {
        var spentTime := clock.Now();
        spentTime := spentTime - beginAt;
        clock.SleepFor(POLL_SLEEP);
        resp.Reset();
        r := drive.Receive(protocol, baseComId, resp.buf);
        polls := polls + 1;
        if !r.IsOk() {
          GoodWhilePending(Answer(r, resp.buf[..]));
          return;
        }
        PendingIff(r, resp.buf[..]);
        if spentTime > TIMEOUT {
          again := false;
        } else {
          again := Pending(resp.buf[..]);
        }
      }
    }
  }
}
