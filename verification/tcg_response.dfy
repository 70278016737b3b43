/** TcgResponseImpl of src/tcg/tcg_response_impl.cc: the receive buffer and its tokeniser. */
module TcgResponse {
  import opened DparmTypes
  import opened TcgTypes
  import opened TcgToken
  import opened TcgCodec
  import opened TcgCommand

  datatype Option<T> = None | Some(value: T)

  ghost predicate AllFramed(ts: seq<Token>) {
    forall k :: 0 <= k < |ts| ==> ts[k].Framed()
  }

  /** Unsigned 32-bit arithmetic of an index. */
  function Wrap(i: int): uint32 {
    i % 0x1_0000_0000
  }

  /** The tokens a full receive buffer holds, unless its length field points past the buffer. */
  function Committed(s: seq<uint8>, slack: nat -> uint8): (t: Option<seq<Token>>)
    requires |s| == MIN_BUFFER_LENGTH
    ensures t.Some? ==> AllFramed(t.value)
  {
    var end := HEADER_SIZE + LengthAt(s, AT_SUBPACKET_LENGTH);
    if end > MIN_BUFFER_LENGTH then None else Some(Tokenize(s, slack, HEADER_SIZE, end))
  }

  class TcgResponseImpl {
    const buf: array<uint8>
    // The memory behind the buffer: a malformed last atom makes commit read from it.
    const slack: nat -> uint8
    var tokens: seq<Token>

    ghost predicate Valid()
      reads this
    {
      buf.Length == MIN_BUFFER_LENGTH && |tokens| <= MIN_BUFFER_LENGTH && AllFramed(tokens)
    }

    constructor (slack: nat -> uint8)
      ensures Valid() && fresh(buf) && tokens == [] && this.slack == slack
    {
      buf := new uint8[MIN_BUFFER_LENGTH](_ => 0);
      this.slack := slack;
      tokens := [];
    }

    /** reset() clears the buffer only; tokens of an earlier commit stay. */
    method Reset()
      requires Valid()
      modifies buf
      ensures Valid() && buf[..] == TcgCommand.Zeros(MIN_BUFFER_LENGTH)
    {
      forall k | 0 <= k < buf.Length {
        buf[k] := 0;
      }
    }

    function ByteAt(i: nat): uint8
      reads buf
      ensures ByteAt(i) == At(buf[..], slack, i)
    {
      if i < buf.Length then buf[i] else slack(i)
    }

    method Commit() returns (r: DparmResult)
      requires Valid()
      modifies `tokens
      ensures Valid()
      ensures match Committed(buf[..], slack)
              case None => r == DparmResult(ILLEGAL_DATA, 0, 0) && tokens == old(tokens)
              case Some(ts) => r == DparmResult(OK, 0, 0) && tokens == ts
    {
      hide Tokenize, FromLE32, FromBE32, Swap32;
      LoadSwapped(buf[AT_SUBPACKET_LENGTH..AT_SUBPACKET_LENGTH + 4]);
      var subpktLength := Swap32(FromLE32(buf[AT_SUBPACKET_LENGTH..AT_SUBPACKET_LENGTH + 4]));
      assert subpktLength == LengthAt(buf[..], AT_SUBPACKET_LENGTH) by {
        assert buf[..][AT_SUBPACKET_LENGTH..AT_SUBPACKET_LENGTH + 4]
            == buf[AT_SUBPACKET_LENGTH..AT_SUBPACKET_LENGTH + 4];
      }
      var cur := HEADER_SIZE;
      var end := cur + subpktLength;
      if end > MIN_BUFFER_LENGTH {
        return DparmResult(ILLEGAL_DATA, 0, 0);
      }
      var respTokens := ScanTokens(cur, end);
      tokens := respTokens;
      r := DparmResult(OK, 0, 0);
    }

    /** The cursor loop of commit. */
    method ScanTokens(start: nat, end: nat) returns (respTokens: seq<Token>)
      requires Valid()
      ensures respTokens == Tokenize(buf[..], slack, start, end)
    {
      hide TokenLength, Slice, Tokenize;
      ghost var s := buf[..];
      respTokens := [];
      var cur := start;
      while cur < end
        invariant respTokens + Tokenize(s, slack, cur, end) == Tokenize(s, slack, start, end)
        decreases end - cur
      {
        var n := CurTokenLength(cur);
        var t := Slice(buf[..], slack, cur, n);
        TokenizeStep(s, slack, cur, end, n, t);
        ghost var rest := Tokenize(s, slack, cur + n, end);
        assert respTokens + ([Token(t)] + rest) == respTokens + [Token(t)] + rest;
        assert respTokens + ([] + rest) == respTokens + rest;
        if t != [EMPTYATOM] {
          respTokens := respTokens + [Token(t)];
        }
        cur := cur + n;
      }
      NothingLeft(s, slack, cur, end);
    }

    /** cur_token_length for the atom that starts at cur. */
    method CurTokenLength(cur: nat) returns (n: nat)
      requires Valid()
      ensures n == TokenLength(buf[..], slack, cur)
    {
      var b: nat := ByteAt(cur);
      if !Bit(b, 0x80) {
        n := 1;
      } else if !Bit(b, 0x40) {
        n := b % 16 + 1;
      } else if !Bit(b, 0x20) {
        var b1: nat := ByteAt(cur + 1);
        n := b % 8 * 256 + b1 + 2;
      } else if !Bit(b, 0x10) {
        var b1: nat, b2: nat, b3: nat := ByteAt(cur + 1), ByteAt(cur + 2), ByteAt(cur + 3);
        n := b1 * 0x1_0000 + b2 * 0x100 + b3 + 4;
      } else {
        n := 1;
      }
    }

    function GetTokenCount(): nat
      reads this
    {
      |tokens|
    }

    /** None stands for the null pointer. */
    function GetToken(index: uint32): (t: Option<Token>)
      reads this
      ensures t == if index < |tokens| then Some(tokens[index]) else None
    {
      if index >= |tokens| then None else Some(tokens[index])
    }

    /**
     * The index is unsigned, so with fewer than k tokens count - k wraps around. It then still lies behind the last
     * token: asking for the k-th token from the end never yields another one.
     */
    lemma TokenFromEnd(k: nat)
      requires Valid() && 1 <= k <= 0x1_0000_0000
      ensures GetToken(Wrap(GetTokenCount() - k)).None? <==> |tokens| < k
      ensures k <= |tokens| ==> GetToken(Wrap(GetTokenCount() - k)) == Some(tokens[|tokens| - k])
    {
      if |tokens| < k {
        assert Wrap(|tokens| - k) == |tokens| - k + 0x1_0000_0000;
      } else {
        assert Wrap(|tokens| - k) == |tokens| - k;
      }
    }
  }

  /** A buffer with printed items at its payload tokenises to them, whatever memory follows. */
  lemma CommitPrinted(s: seq<uint8>, slack: nat -> uint8, items: seq<Item>)
    requires |s| == MIN_BUFFER_LENGTH && ValidItems(items)
    requires HEADER_SIZE + |EncodeAll(items)| <= MIN_BUFFER_LENGTH
    requires LengthAt(s, AT_SUBPACKET_LENGTH) == |EncodeAll(items)|
    requires s[HEADER_SIZE..HEADER_SIZE + |EncodeAll(items)|] == EncodeAll(items)
    ensures Committed(s, slack) == Some(TokensOfAll(items))
  {
    TokenizeItems(s, slack, HEADER_SIZE, HEADER_SIZE + |EncodeAll(items)|, items);
  }

  /** A receive buffer with a short payload, non-zero packet lengths and nothing outstanding. */
  function WithPayload(payload: seq<uint8>): (s: seq<uint8>)
    ensures |s| == MIN_BUFFER_LENGTH
  {
    seq<uint8>(MIN_BUFFER_LENGTH, k requires 0 <= k < MIN_BUFFER_LENGTH =>
      if k == 19 || k == 43 then 1
      else if k == 55 then |payload| % 256
      else if 56 <= k < 56 + |payload| then payload[k - 56]
      else 0)
  }

  lemma PayloadFields(payload: seq<uint8>)
    requires 1 <= |payload| < 256
    ensures var s := WithPayload(payload);
            && LengthAt(s, AT_COM_LENGTH) == LengthAt(s, AT_PACKET_LENGTH) == 1
            && LengthAt(s, AT_SUBPACKET_LENGTH) == |payload|
            && s[HEADER_SIZE..HEADER_SIZE + |payload|] == payload
            && FromBE32(s[8..12]) == 0
  {
    var s := WithPayload(payload);
    assert s[8..12] == [0, 0, 0, 0];
    assert s[AT_COM_LENGTH..AT_COM_LENGTH + 4] == [0, 0, 0, 1];
    assert s[AT_PACKET_LENGTH..AT_PACKET_LENGTH + 4] == [0, 0, 0, 1];
    assert s[AT_SUBPACKET_LENGTH..AT_SUBPACKET_LENGTH + 4] == [0, 0, 0, |payload|];
    assert s[HEADER_SIZE..HEADER_SIZE + |payload|] == payload;
  }

  /** It commits to the tokens of the payload. */
  lemma PayloadCommits(items: seq<Item>, slack: nat -> uint8)
    requires ValidItems(items) && 1 <= |EncodeAll(items)| < 256
    ensures Committed(WithPayload(EncodeAll(items)), slack) == Some(TokensOfAll(items))
  {
    hide WithPayload, FromBE32, Encode;
    PayloadFields(EncodeAll(items));
    CommitPrinted(WithPayload(EncodeAll(items)), slack, items);
  }
}
