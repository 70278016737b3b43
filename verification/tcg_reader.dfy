/**
 * What a receiver reads from the tokens of the session commands: positional arguments by their place, named ones by
 * the name that precedes them.
 */
module TcgReader {
  import opened DparmTypes
  import opened TcgTypes
  import opened TcgToken
  import opened TcgCodec
  import opened TcgResponse
  import opened TcgLoopback
  import opened TcgPayloads

  /** What one argument or name stands for. */
  datatype Value = Num(n: nat) | Text(bytes: seq<uint8>)

  /** The token reads as the value. */
  predicate Reads(t: Token, v: Value) {
    match v
    case Num(n) => |t.buf| >= 1 && t.Type() == 0xe2 && ReadsAs(t, n)
    case Text(b) => t.Framed() && t.Type() == 0xe0 && t.GetBytes() == DparmReturn(DparmResult(OK, 0, 0), b)
  }

  function Ascii(text: string): seq<uint8>
    requires forall k :: 0 <= k < |text| ==> text[k] < '\U{0100}'
  {
    seq<uint8>(|text|, k requires 0 <= k < |text| => text[k] as nat)
  }

  /** STARTNAME. */
  predicate IsStart(t: Token) { t.buf == [0xf2] }

  /** ENDNAME. */
  predicate IsEnd(t: Token) { t.buf == [0xf3] }

  predicate IsMark(t: Token) { IsStart(t) || IsEnd(t) }

  /** The first value that stands behind the name, between STARTNAME and ENDNAME. */
  function Named(ts: seq<Token>, name: Value): Option<Token> {
    if |ts| < 4 then None
    else if IsStart(ts[0]) && Reads(ts[1], name) && !IsEnd(ts[2]) && IsEnd(ts[3]) then Some(ts[2])
    else Named(ts[1..], name)
  }

  predicate NamedReads(ts: seq<Token>, name: Value, v: Value) {
    Named(ts, name).Some? && Reads(Named(ts, name).value, v)
  }

  /** The bytes are one whole atom. */
  predicate IsAtom(b: seq<uint8>) {
    b != [] && !KindOf(b[0]).Control? && TokenLength(b, NO_SLACK, 0) == |b|
  }

  /** A method call: CALL, the object, the method and its list of arguments, ENDOFDATA and a status list of zeros. */
  predicate ReadsAsCall(ts: seq<Token>, methodUid: seq<uint8>) {
    && |ts| >= 11
    && ts[0].buf == [0xf8] && Reads(ts[2], Text(methodUid)) && ts[3].buf == [0xf0]
    && ts[|ts| - 7..] == [Token([0xf1]), Token([0xf9]), Token([0xf0]), Token([0x00]), Token([0x00]), Token([0x00]),
                          Token([0xf1])]
  }

  /** The session manager is asked for a session that writes to sp, from host session 105. */
  predicate ReadsAsStart(ts: seq<Token>, sp: seq<uint8>, secret: Option<seq<uint8>>, authority: seq<uint8>,
                         timeout: Option<uint32>)
  {
    && ReadsAsCall(ts, [0x00, 0x00, 0x00, 0x00, 0x00, 0x00, 0xff, 0x02])
    && |ts| >= 14
    && Reads(ts[1], Text([0x00, 0x00, 0x00, 0x00, 0x00, 0x00, 0x00, 0xff]))
    && Reads(ts[4], Num(105)) && Reads(ts[5], Text(sp)) && Reads(ts[6], Num(1))
    // The host challenge is argument 0 and the signing authority argument 3.
    && (match secret
        case None => Named(ts[7..], Num(0)).None? && Named(ts[7..], Num(3)).None?
        case Some(s) => (NamedReads(ts[7..], Num(0), Text(s)) <==> 1 <= |s| < 2048)
                        && Named(ts[7..], Num(3)) == Some(Token(authority)))
    && (match timeout
        case None => Named(ts[7..], Text(Ascii("SessionTimeout"))).None?
        case Some(ms) => NamedReads(ts[7..], Text(Ascii("SessionTimeout")), Num(ms)))
  }

  /** The encoded object is asked for the columns from startCol, argument 3, to endCol, argument 4. */
  predicate ReadsAsGet(ts: seq<Token>, table: seq<uint8>, startCol: uint16, endCol: uint16) {
    && ReadsAsCall(ts, [0x00, 0x00, 0x00, 0x06, 0x00, 0x00, 0x00, 0x16])
    && ts[1] == Token(table) && ts[4].buf == [0xf0] && ts[|ts| - 8].buf == [0xf1]
    && NamedReads(ts[5..], Num(3), Num(startCol)) && NamedReads(ts[5..], Num(4), Num(endCol))
  }

  /** The admin SP is asked to revert, without arguments. */
  predicate ReadsAsRevert(ts: seq<Token>) {
    && ReadsAsCall(ts, [0x00, 0x00, 0x00, 0x06, 0x00, 0x00, 0x02, 0x02])
    && |ts| == 11 && Reads(ts[1], Text([0x00, 0x00, 0x02, 0x05, 0x00, 0x00, 0x00, 0x01]))
  }

  /** This SP is asked to authenticate the encoded authority; what ends the arguments is ENDNAME. */
  predicate ReadsAsAuthenticate(ts: seq<Token>, enterprise: bool, authority: seq<uint8>, secret: Option<seq<uint8>>) {
    && |ts| >= 12
    && ts[0].buf == [0xf8] && Reads(ts[1], Text([0x00, 0x00, 0x00, 0x00, 0x00, 0x00, 0x00, 0x01]))
    && Reads(ts[2], Text([0x00, 0x00, 0x00, 0x06, 0x00, 0x00, 0x00, if enterprise then 0x0c else 0x1c]))
    && ts[3].buf == [0xf0] && ts[4] == Token(authority)
    && ts[|ts| - 7..] == [Token([0xf3]), Token([0xf9]), Token([0xf0]), Token([0x00]), Token([0x00]), Token([0x00]),
                          Token([0xf1])]
    && var name := if enterprise then Text(Ascii("Challenge")) else Num(0);
       match secret
       case None => Named(ts[5..], name).None?
       case Some(s) => NamedReads(ts[5..], name, Text(s)) <==> 1 <= |s| < 2048
  }

  // ---- Tokens of items --------------------------------------------------------------------------------------

  /** The end of a call's argument list and its tail. */
  const CLOSING: seq<Token> :=
    [Token([0xf1]), Token([0xf9]), Token([0xf0]), Token([0x00]), Token([0x00]), Token([0x00]), Token([0xf1])]

  lemma NumberReads(v: uint64)
    ensures var t := Token(EncodeNumber(v));
            && TokensOf(Number(v)) == [t] && !IsMark(t)
            && (forall n: nat :: Reads(t, Num(n)) <==> n == v) && (forall b :: !Reads(t, Text(b)))
  {
    hide EncodeNumber, TokensOf, Token.Number, Token.ReadsAsNumber;
    NumberRoundTrip(v);
  }

  lemma TextReads(d: seq<uint8>)
    requires 1 <= |d| < 2048
    ensures var t := Token(EncodeBytes(d));
            && TokensOf(Bytes(d)) == [t] && !IsMark(t)
            && (forall b :: Reads(t, Text(b)) <==> b == d) && (forall n: nat :: !Reads(t, Num(n)))
  {
    hide EncodeBytes, TokensOf, Token.GetBytes, Token.Framed;
    BytesRoundTrip(d);
  }

  /** An atom is one token with the same bytes. */
  lemma AtomToken(b: seq<uint8>)
    requires IsAtom(b)
    ensures ValidItem(Raw(b)) && TokensOf(Raw(b)) == [Token(b)] && !IsMark(Token(b))
  {
    hide TokenLength, Tokenize;
    NothingLeft(b, NO_SLACK, |b|, |b|);
    TokenizeStep(b, NO_SLACK, 0, |b|, |b|, b);
    assert Slice(b, NO_SLACK, 0, |b|) == b;
    assert Clean(b, |b|);
  }

  lemma SymbolToken(code: uint8)
    requires code != 0xff
    ensures TokensOfAll([Symbol(code)]) == [Token([code])]
  {
    OneItem(Symbol(code));
  }

  lemma NameTokens(name: Item, value: Item)
    ensures TokensOfAll(NameItems(name, value))
         == [Token([0xf2])] + TokensOf(name) + TokensOf(value) + [Token([0xf3])]
  {
    hide TokensOf, TokensOfAll;
    SymbolToken(0xf2);
    SymbolToken(0xf3);
    OneItem(name);
    OneItem(value);
    TokensOfAllAppend([Symbol(0xf2)], [name]);
    TokensOfAllAppend([Symbol(0xf2)] + [name], [value]);
    TokensOfAllAppend([Symbol(0xf2)] + [name] + [value], [Symbol(0xf3)]);
    assert NameItems(name, value) == [Symbol(0xf2)] + [name] + [value] + [Symbol(0xf3)];
  }

  lemma ListTokens(body: seq<Item>)
    ensures TokensOfAll(ListItems(body)) == [Token([0xf0])] + TokensOfAll(body) + [Token([0xf1])]
  {
    hide TokensOfAll;
    SymbolToken(0xf0);
    SymbolToken(0xf1);
    TokensOfAllAppend([Symbol(0xf0)], body);
    TokensOfAllAppend([Symbol(0xf0)] + body, [Symbol(0xf1)]);
  }

  lemma CallTokens(obj: Item, methodUid: seq<uint8>)
    ensures TokensOfAll(CallItems(obj, methodUid)) == [Token([0xf8])] + TokensOf(obj) + TokensOf(Bytes(methodUid))
  {
    hide TokensOf, TokensOfAll;
    SymbolToken(0xf8);
    OneItem(obj);
    OneItem(Bytes(methodUid));
    TokensOfAllAppend([Symbol(0xf8)], [obj]);
    TokensOfAllAppend([Symbol(0xf8)] + [obj], [Bytes(methodUid)]);
    assert CallItems(obj, methodUid) == [Symbol(0xf8)] + [obj] + [Bytes(methodUid)];
  }

  /** A call with one argument list, from CALL to the status list. */
  lemma CallReads(obj: Item, o: Token, methodUid: seq<uint8>, body: seq<Item>)
    requires TokensOf(obj) == [o] && 1 <= |methodUid| < 2048
    ensures var ts := TokensOfAll(CallItems(obj, methodUid) + ListItems(body) + TAIL_ITEMS);
            && |ts| == 4 + |TokensOfAll(body)| + 7 && ts[4..] == TokensOfAll(body) + CLOSING
            && ts[1] == o && ReadsAsCall(ts, methodUid)
  {
    hide TokensOf, TokensOfAll, Reads, EncodeBytes, CallItems, ListItems;
    var call, args := CallItems(obj, methodUid), ListItems(body);
    TextReads(methodUid);
    CallTokens(obj, methodUid);
    ListTokens(body);
    TailIsItems();
    TokensOfAllAppend(call, args);
    TokensOfAllAppend(call + args, TAIL_ITEMS);
    var ts := TokensOfAll(call + args + TAIL_ITEMS);
    var head := [Token([0xf8]), o, Token(EncodeBytes(methodUid)), Token([0xf0])];
    assert ts == head + (TokensOfAll(body) + CLOSING);
  }

  // ---- Looking up names -------------------------------------------------------------------------------------

  /** No name starts in these tokens. */
  predicate NamesNothing(ts: seq<Token>) {
    forall k :: 0 <= k < |ts| ==> !IsStart(ts[k])
  }

  lemma {:induction false} NamedSkips(a: seq<Token>, ts: seq<Token>, name: Value)
    requires NamesNothing(a)
    ensures Named(a + ts, name) == Named(ts, name)
    decreases |a|
  {
    hide Reads;
    if a == [] {
      assert a + ts == ts;
    } else {
      assert (a + ts)[1..] == a[1..] + ts && (a + ts)[0] == a[0];
      NamedSkips(a[1..], ts, name);
    }
  }

  lemma NamedMisses(ts: seq<Token>, name: Value)
    requires NamesNothing(ts)
    ensures Named(ts, name) == None
  {
    NamedSkips(ts, [], name);
    assert ts + [] == ts;
  }

  /** A name with at most one token for its value, in front of what follows it. */
  lemma NamedPair(k: Token, vs: seq<Token>, ts: seq<Token>, name: Value)
    requires |vs| <= 1 && !IsMark(k) && (|vs| == 1 ==> !IsMark(vs[0]))
    ensures Named([Token([0xf2])] + [k] + vs + [Token([0xf3])] + ts, name)
         == if Reads(k, name) && |vs| == 1 then Some(vs[0]) else Named(ts, name)
  {
    hide Reads, NamesNothing;
    var rest := [k] + vs + [Token([0xf3])];
    PairNamesNothing(k, vs);
    NamedSkips(rest, ts, name);
    assert [Token([0xf2])] + [k] + vs + [Token([0xf3])] + ts == [Token([0xf2])] + (rest + ts);
    NameStarts(k, vs, ts);
    NamedStep(rest + ts, name);
  }

  lemma PairNamesNothing(k: Token, vs: seq<Token>)
    requires |vs| <= 1 && !IsMark(k) && (|vs| == 1 ==> !IsMark(vs[0]))
    ensures NamesNothing([k] + vs + [Token([0xf3])])
  {}

  /** What follows STARTNAME is the name, the value and ENDNAME only if there is a value. */
  lemma NameStarts(k: Token, vs: seq<Token>, ts: seq<Token>)
    requires |vs| <= 1 && (|vs| == 1 ==> !IsMark(vs[0]))
    ensures var rest := [k] + vs + [Token([0xf3])] + ts;
            && rest[0] == k && (|rest| >= 3 && !IsEnd(rest[1]) && IsEnd(rest[2]) <==> |vs| == 1)
            && (|vs| == 1 ==> rest[1] == vs[0])
  {}

  lemma NamedStep(rest: seq<Token>, name: Value)
    requires rest != []
    ensures Named([Token([0xf2])] + rest, name)
         == if |rest| >= 3 && Reads(rest[0], name) && !IsEnd(rest[1]) && IsEnd(rest[2]) then Some(rest[1])
            else Named(rest, name)
  {
    hide Reads;
    assert ([Token([0xf2])] + rest)[1..] == rest;
  }

  // ---- The commands -----------------------------------------------------------------------------------------

  lemma NamesAreAscii()
    ensures TEXT_SESSION_TIMEOUT == Ascii("SessionTimeout") && TEXT_CHALLENGE == Ascii("Challenge")
  {}

  /** The host challenge and the signing authority in front of other arguments. */
  lemma LoginReads(secret: seq<uint8>, authority: seq<uint8>, rest: seq<Token>)
    requires IsAtom(authority) && Named(rest, Num(0)) == None
    ensures var login := NameItems(Number(0), Bytes(secret)) + NameItems(Number(3), Raw(authority));
            var ts := TokensOfAll(login) + rest;
            && (NamedReads(ts, Num(0), Text(secret)) <==> 1 <= |secret| < 2048)
            && Named(ts, Num(3)) == Some(Token(authority))
            && forall b :: Named(ts, Text(b)) == Named(rest, Text(b))
  {
    hide TokensOf, TokensOfAll, Reads, IsAtom, NameItems, Named;
    NameTokens(Number(0), Bytes(secret));
    NameTokens(Number(3), Raw(authority));
    TokensOfAllAppend(NameItems(Number(0), Bytes(secret)), NameItems(Number(3), Raw(authority)));
    NumberReads(0);
    NumberReads(3);
    AtomToken(authority);
    SecretToken(secret);
    var zero, three, vs := Token(EncodeNumber(0)), Token(EncodeNumber(3)), TokensOf(Bytes(secret));
    var second := [Token([0xf2])] + [three] + [Token(authority)] + [Token([0xf3])] + rest;
    assert TokensOfAll(NameItems(Number(0), Bytes(secret)) + NameItems(Number(3), Raw(authority))) + rest
        == [Token([0xf2])] + [zero] + vs + [Token([0xf3])] + second;
    NamedPair(zero, vs, second, Num(0));
    NamedPair(zero, vs, second, Num(3));
    NamedPair(three, [Token(authority)], rest, Num(0));
    NamedPair(three, [Token(authority)], rest, Num(3));
    forall b
      ensures Named([Token([0xf2])] + [zero] + vs + [Token([0xf3])] + second, Text(b)) == Named(rest, Text(b))
    {
      NamedPair(zero, vs, second, Text(b));
      NamedPair(three, [Token(authority)], rest, Text(b));
    }
  }

  /** The token of a secret, if there is one, reads as the secret exactly for these lengths. */
  lemma SecretToken(secret: seq<uint8>)
    ensures var vs := TokensOf(Bytes(secret));
            && |vs| <= 1 && (|vs| == 1 ==> !IsMark(vs[0]))
            && (|vs| == 1 && Reads(vs[0], Text(secret)) <==> 1 <= |secret| < 2048)
  {
    if 1 <= |secret| < 2048 {
      TextReads(secret);
    } else if secret == [] {
      EmptyStringReadsAsZero();
    }
  }

  /** The time limit in front of other arguments. */
  lemma LimitReads(ms: uint32, rest: seq<Token>)
    ensures var ts := TokensOfAll(NameItems(Bytes(TEXT_SESSION_TIMEOUT), Number(ms))) + rest;
            && NamedReads(ts, Text(Ascii("SessionTimeout")), Num(ms))
            && forall n: nat :: Named(ts, Num(n)) == Named(rest, Num(n))
  {
    hide TokensOf, TokensOfAll, Reads, Named, NameItems, Ascii;
    NamesAreAscii();
    NameTokens(Bytes(TEXT_SESSION_TIMEOUT), Number(ms));
    TextReads(TEXT_SESSION_TIMEOUT);
    NumberReads(ms);
    var k, v := Token(EncodeBytes(TEXT_SESSION_TIMEOUT)), Token(EncodeNumber(ms));
    NamedPair(k, [v], rest, Text(Ascii("SessionTimeout")));
    forall n: nat
      ensures Named([Token([0xf2])] + [k] + [v] + [Token([0xf3])] + rest, Num(n)) == Named(rest, Num(n))
    {
      NamedPair(k, [v], rest, Num(n));
    }
  }

  /** The arguments of STARTSESSION behind the positional ones. */
  lemma StartArguments(secret: Option<seq<uint8>>, authority: seq<uint8>, timeout: Option<uint32>)
    requires secret.Some? ==> IsAtom(authority)
    ensures var login := if secret.Some?
                         then NameItems(Number(0), Bytes(secret.value)) + NameItems(Number(3), Raw(authority)) else [];
            var limit := if timeout.Some? then NameItems(Bytes(TEXT_SESSION_TIMEOUT), Number(timeout.value)) else [];
            var ts := TokensOfAll(login) + (TokensOfAll(limit) + CLOSING);
            && (secret == None ==> Named(ts, Num(0)).None? && Named(ts, Num(3)).None?)
            && (secret.Some? ==>
                  (NamedReads(ts, Num(0), Text(secret.value)) <==> 1 <= |secret.value| < 2048)
                  && Named(ts, Num(3)) == Some(Token(authority)))
            && (timeout == None ==> Named(ts, Text(Ascii("SessionTimeout"))).None?)
            && (timeout.Some? ==> NamedReads(ts, Text(Ascii("SessionTimeout")), Num(timeout.value)))
  {
    hide TokensOf, Reads, Named, NameItems, Ascii, IsAtom;
    var rest := CLOSING;
    NamedMisses(CLOSING, Num(0));
    NamedMisses(CLOSING, Num(3));
    NamedMisses(CLOSING, Text(Ascii("SessionTimeout")));
    if timeout.Some? {
      LimitReads(timeout.value, CLOSING);
      var limit := TokensOfAll(NameItems(Bytes(TEXT_SESSION_TIMEOUT), Number(timeout.value)));
      NameTokens(Bytes(TEXT_SESSION_TIMEOUT), Number(timeout.value));
      rest := limit + CLOSING;
    } else {
      assert [] + CLOSING == CLOSING;
    }
    if secret.Some? {
      LoginReads(secret.value, authority, rest);
    } else {
      assert [] + rest == rest;
    }
  }

  lemma PositionalTokens(sp: seq<uint8>)
    requires 1 <= |sp| < 2048
    ensures TokensOfAll([Number(105), Bytes(sp), Number(1)])
         == [Token(EncodeNumber(105)), Token(EncodeBytes(sp)), Token(EncodeNumber(1))]
  {
    hide TokensOf, TokensOfAll, Reads, EncodeBytes, EncodeNumber;
    NumberReads(105);
    NumberReads(1);
    TextReads(sp);
    OneItem(Number(1));
    ConsItem(Bytes(sp), [Number(1)]);
    ConsItem(Number(105), [Bytes(sp), Number(1)]);
    assert [Number(105), Bytes(sp), Number(1)] == [Number(105)] + [Bytes(sp), Number(1)];
    assert [Bytes(sp), Number(1)] == [Bytes(sp)] + [Number(1)];
  }

  /** What is read from STARTSESSION is what was asked for. */
  lemma StartItemsRead(sp: seq<uint8>, secret: Option<seq<uint8>>, authority: seq<uint8>, timeout: Option<uint32>)
    requires 1 <= |sp| < 2048 && (secret.Some? ==> IsAtom(authority))
    ensures ReadsAsStart(TokensOfAll(StartItems(sp, secret, authority, timeout)), sp, secret, authority, timeout)
  {
    hide TokensOf, TokensOfAll, Reads, Named, NameItems, Ascii, IsAtom, CallItems, ListItems, EncodeBytes,
         EncodeNumber, ReadsAsCall;
    var head := [Number(105), Bytes(sp), Number(1)];
    var login := if secret.Some?
                 then NameItems(Number(0), Bytes(secret.value)) + NameItems(Number(3), Raw(authority)) else [];
    var limit := if timeout.Some? then NameItems(Bytes(TEXT_SESSION_TIMEOUT), Number(timeout.value)) else [];
    StartArguments(secret, authority, timeout);
    PositionalTokens(sp);
    NumberReads(105);
    NumberReads(1);
    TextReads(sp);
    TextReads(SMUID_UID);
    TokensOfAllAppend(head + login, limit);
    TokensOfAllAppend(head, login);
    CallReads(Bytes(SMUID_UID), Token(EncodeBytes(SMUID_UID)), METHOD_STARTSESSION, head + login + limit);
    ArgumentsBehind(TokensOfAll(StartItems(sp, secret, authority, timeout)), TokensOfAll(head), TokensOfAll(login),
                    TokensOfAll(limit));
  }

  lemma ArgumentsBehind(ts: seq<Token>, head: seq<Token>, login: seq<Token>, limit: seq<Token>)
    requires |ts| >= 4 && |head| == 3 && ts[4..] == head + login + limit + CLOSING
    ensures |ts| >= 14 && ts[4] == head[0] && ts[5] == head[1] && ts[6] == head[2]
    ensures ts[7..] == login + (limit + CLOSING)
  {
    assert head + login + limit + CLOSING == head + (login + (limit + CLOSING));
    assert ts[7..] == ts[4..][3..];
    assert ts[4] == ts[4..][0] && ts[5] == ts[4..][1] && ts[6] == ts[4..][2];
  }

  /** What is read from GET is the column range that was asked for. */
  lemma GetTableItemsRead(table: seq<uint8>, startCol: uint16, endCol: uint16)
    requires IsAtom(table)
    ensures ReadsAsGet(TokensOfAll(GetTableItems(table, startCol, endCol)), table, startCol, endCol)
  {
    hide TokensOf, TokensOfAll, Reads, Named, NameItems, IsAtom, CallItems, ListItems, ReadsAsCall;
    var a, b := NameItems(Number(3), Number(startCol)), NameItems(Number(4), Number(endCol));
    AtomToken(table);
    NumberReads(startCol);
    NumberReads(endCol);
    RangeReads(startCol, endCol, [Token([0xf1])] + CLOSING);
    ListTokens(a + b);
    CallReads(Raw(table), Token(table), METHOD_GET, ListItems(a + b));
    ListBehind(TokensOfAll(GetTableItems(table, startCol, endCol)), TokensOfAll(a + b));
  }

  lemma RangeReads(startCol: uint16, endCol: uint16, rest: seq<Token>)
    ensures var ts := TokensOfAll(NameItems(Number(3), Number(startCol)) + NameItems(Number(4), Number(endCol))) + rest;
            NamedReads(ts, Num(3), Num(startCol)) && NamedReads(ts, Num(4), Num(endCol))
  {
    hide TokensOf, TokensOfAll, Reads, Named, NameItems;
    NameTokens(Number(3), Number(startCol));
    NameTokens(Number(4), Number(endCol));
    TokensOfAllAppend(NameItems(Number(3), Number(startCol)), NameItems(Number(4), Number(endCol)));
    NumberReads(3);
    NumberReads(4);
    NumberReads(startCol);
    NumberReads(endCol);
    var three, four := Token(EncodeNumber(3)), Token(EncodeNumber(4));
    var v, w := Token(EncodeNumber(startCol)), Token(EncodeNumber(endCol));
    var second := [Token([0xf2])] + [four] + [w] + [Token([0xf3])] + rest;
    assert TokensOfAll(NameItems(Number(3), Number(startCol)) + NameItems(Number(4), Number(endCol))) + rest
        == [Token([0xf2])] + [three] + [v] + [Token([0xf3])] + second;
    NamedPair(three, [v], second, Num(3));
    NamedPair(three, [v], second, Num(4));
    NamedPair(four, [w], rest, Num(4));
  }

  lemma ListBehind(ts: seq<Token>, args: seq<Token>)
    requires |ts| >= 4 && ts[4..] == [Token([0xf0])] + args + [Token([0xf1])] + CLOSING
    ensures |ts| >= 13 && ts[4].buf == [0xf0] && ts[|ts| - 8].buf == [0xf1]
    ensures ts[5..] == args + ([Token([0xf1])] + CLOSING)
  {
    assert [Token([0xf0])] + args + [Token([0xf1])] + CLOSING
        == [Token([0xf0])] + (args + ([Token([0xf1])] + CLOSING));
    assert ts[5..] == ts[4..][1..];
    assert ts[4] == ts[4..][0] && ts[|ts| - 8] == ts[4..][|ts[4..]| - 8];
  }

  lemma RevertItemsRead()
    ensures ReadsAsRevert(TokensOfAll(RevertItems()))
  {
    hide TokensOf, TokensOfAll, Reads, CallItems, ListItems, ReadsAsCall, EncodeBytes;
    TextReads(ADMINSP_UID);
    CallReads(Bytes(ADMINSP_UID), Token(EncodeBytes(ADMINSP_UID)), METHOD_REVERT, []);
    NoTokens();
  }

  lemma NoTokens()
    ensures TokensOfAll([]) == []
  {}

  /** What is read from AUTHENTICATE. */
  lemma AuthenticateItemsRead(enterprise: bool, authority: seq<uint8>, secret: Option<seq<uint8>>)
    requires IsAtom(authority)
    ensures ReadsAsAuthenticate(TokensOfAll(AuthenticateItems(enterprise, authority, secret)), enterprise, authority,
                                secret)
  {
    hide TokensOf, TokensOfAll, Reads, Named, NameItems, Ascii, IsAtom, CallItems, EncodeBytes, EncodeNumber;
    var name := if enterprise then Bytes(TEXT_CHALLENGE) else Number(0);
    var login := if secret.Some? then NameItems(name, Bytes(secret.value)) else [];
    var methodUid := if enterprise then METHOD_EAUTHENTICATE else METHOD_AUTHENTICATE;
    TextReads(THISSP_UID);
    TextReads(methodUid);
    ChallengeReads(enterprise, secret);
    MisclosedTokens(THISSP_UID, methodUid, authority, login);
    BehindAuthority(TokensOfAll(AuthenticateItems(enterprise, authority, secret)), Token(EncodeBytes(THISSP_UID)),
                    Token(EncodeBytes(methodUid)), Token(authority), TokensOfAll(login));
  }

  lemma MisclosedTokens(obj: seq<uint8>, methodUid: seq<uint8>, authority: seq<uint8>, login: seq<Item>)
    requires IsAtom(authority) && 1 <= |obj| < 2048 && 1 <= |methodUid| < 2048
    ensures TokensOfAll(CallItems(Bytes(obj), methodUid)
                        + ([Symbol(0xf0)] + ([Raw(authority)] + login + ([Symbol(0xf3)] + TAIL_ITEMS))))
         == [Token([0xf8])] + [Token(EncodeBytes(obj))] + [Token(EncodeBytes(methodUid))]
            + ([Token([0xf0])] + ([Token(authority)] + TokensOfAll(login) + MISCLOSING))
  {
    hide TokensOf, TokensOfAll, Reads, IsAtom, CallItems, EncodeBytes;
    TextReads(obj);
    TextReads(methodUid);
    AtomToken(authority);
    CallTokens(Bytes(obj), methodUid);
    OneItem(Raw(authority));
    EndTokens();
    SymbolToken(0xf0);
    var call, list, body, end :=
      CallItems(Bytes(obj), methodUid), [Symbol(0xf0)], [Raw(authority)] + login, [Symbol(0xf3)] + TAIL_ITEMS;
    TokensOfAllAppend([Raw(authority)], login);
    TokensOfAllAppend(body, end);
    TokensOfAllAppend(list, body + end);
    TokensOfAllAppend(call, list + (body + end));
  }

  lemma EndTokens()
    ensures TokensOfAll([Symbol(0xf3)] + TAIL_ITEMS) == MISCLOSING
  {
    hide TokensOfAll;
    SymbolToken(0xf3);
    TailIsItems();
    TokensOfAllAppend([Symbol(0xf3)], TAIL_ITEMS);
  }

  /** The end of the arguments of AUTHENTICATE, and the tail. */
  const MISCLOSING: seq<Token> :=
    [Token([0xf3]), Token([0xf9]), Token([0xf0]), Token([0x00]), Token([0x00]), Token([0x00]), Token([0xf1])]

  lemma BehindAuthority(ts: seq<Token>, o: Token, m: Token, authority: Token, login: seq<Token>)
    requires ts == [Token([0xf8])] + [o] + [m] + ([Token([0xf0])] + ([authority] + login + MISCLOSING))
    ensures |ts| >= 12 && ts[0] == Token([0xf8]) && ts[1] == o && ts[2] == m && ts[3] == Token([0xf0])
    ensures ts[4] == authority && ts[5..] == login + MISCLOSING && ts[|ts| - 7..] == MISCLOSING
  {
    assert ts == [Token([0xf8]), o, m, Token([0xf0]), authority] + (login + MISCLOSING);
  }

  lemma ChallengeReads(enterprise: bool, secret: Option<seq<uint8>>)
    ensures var name := if enterprise then Bytes(TEXT_CHALLENGE) else Number(0);
            var ts := TokensOfAll(if secret.Some? then NameItems(name, Bytes(secret.value)) else []) + MISCLOSING;
            var key := if enterprise then Text(Ascii("Challenge")) else Num(0);
            match secret
            case None => Named(ts, key).None?
            case Some(s) => NamedReads(ts, key, Text(s)) <==> 1 <= |s| < 2048
  {
    hide TokensOf, TokensOfAll, Reads, Named, NameItems, Ascii, EncodeBytes, EncodeNumber;
    var name := if enterprise then Bytes(TEXT_CHALLENGE) else Number(0);
    var key := if enterprise then Text(Ascii("Challenge")) else Num(0);
    NamesAreAscii();
    TextReads(TEXT_CHALLENGE);
    NumberReads(0);
    NoTokens();
    NamedMisses(MISCLOSING, key);
    assert [] + MISCLOSING == MISCLOSING;
    if secret.Some? {
      var k := Token(if enterprise then EncodeBytes(TEXT_CHALLENGE) else EncodeNumber(0));
      NameTokens(name, Bytes(secret.value));
      SecretToken(secret.value);
      NamedPair(k, TokensOf(Bytes(secret.value)), MISCLOSING, key);
    }
  }

  // ---- Packets ----------------------------------------------------------------------------------------------

  /** Every receiver reads the packet as a STARTSESSION. */
  ghost predicate AsksToStart(packet: seq<uint8>, sp: seq<uint8>, secret: Option<seq<uint8>>, authority: seq<uint8>,
                              timeout: Option<uint32>)
  {
    && |packet| >= HEADER_SIZE
    && forall slack: nat -> uint8 :: ReadsAsStart(PacketTokens(packet, slack), sp, secret, authority, timeout)
  }

  ghost predicate AsksForColumns(packet: seq<uint8>, table: seq<uint8>, startCol: uint16, endCol: uint16) {
    && |packet| >= HEADER_SIZE
    && forall slack: nat -> uint8 :: ReadsAsGet(PacketTokens(packet, slack), table, startCol, endCol)
  }

  ghost predicate AsksToRevert(packet: seq<uint8>) {
    |packet| >= HEADER_SIZE && forall slack: nat -> uint8 :: ReadsAsRevert(PacketTokens(packet, slack))
  }

  ghost predicate AsksToAuthenticate(packet: seq<uint8>, enterprise: bool, authority: seq<uint8>,
                                     secret: Option<seq<uint8>>)
  {
    && |packet| >= HEADER_SIZE
    && forall slack: nat -> uint8 :: ReadsAsAuthenticate(PacketTokens(packet, slack), enterprise, authority, secret)
  }

  lemma StartPacketReads(packet: seq<uint8>, sp: seq<uint8>, secret: Option<seq<uint8>>, authority: seq<uint8>,
                         timeout: Option<uint32>)
    requires |packet| >= HEADER_SIZE && Carries(packet, StartItems(sp, secret, authority, timeout))
    requires 1 <= |sp| < 2048 && (secret.Some? ==> IsAtom(authority))
    ensures AsksToStart(packet, sp, secret, authority, timeout)
  {
    hide Carries, PacketTokens, TokensOfAll, ReadsAsStart, IsAtom, ValidItems, ValidItem;
    StartAtomsAreValid(sp, secret, authority, timeout);
    StartItemsRead(sp, secret, authority, timeout);
    forall slack: nat -> uint8
      ensures ReadsAsStart(PacketTokens(packet, slack), sp, secret, authority, timeout)
    {
      CarriedTokens(packet, slack, StartItems(sp, secret, authority, timeout));
    }
  }

  lemma StartAtomsAreValid(sp: seq<uint8>, secret: Option<seq<uint8>>, authority: seq<uint8>, timeout: Option<uint32>)
    requires secret.Some? ==> IsAtom(authority)
    ensures ValidItems(StartItems(sp, secret, authority, timeout))
  {
    hide IsAtom, TokensOf, ValidItems;
    if secret.Some? {
      AtomToken(authority);
      StartItemsAreValid(sp, secret, authority, timeout);
    } else {
      NothingIsClean();
      StartItemsAreValid(sp, None, [], timeout);
      assert StartItems(sp, None, authority, timeout) == StartItems(sp, None, [], timeout);
    }
  }

  lemma NothingIsClean()
    ensures ValidItem(Raw([]))
  {}

  lemma GetTablePacketReads(packet: seq<uint8>, table: seq<uint8>, startCol: uint16, endCol: uint16)
    requires |packet| >= HEADER_SIZE && Carries(packet, GetTableItems(table, startCol, endCol)) && IsAtom(table)
    ensures AsksForColumns(packet, table, startCol, endCol)
  {
    hide Carries, PacketTokens, TokensOfAll, ReadsAsGet, IsAtom, TokensOf, ValidItems, ValidItem;
    AtomToken(table);
    GetTableItemsAreValid(table, startCol, endCol);
    GetTableItemsRead(table, startCol, endCol);
    forall slack: nat -> uint8
      ensures ReadsAsGet(PacketTokens(packet, slack), table, startCol, endCol)
    {
      CarriedTokens(packet, slack, GetTableItems(table, startCol, endCol));
    }
  }

  lemma RevertPacketReads(packet: seq<uint8>)
    requires |packet| >= HEADER_SIZE && Carries(packet, RevertItems())
    ensures AsksToRevert(packet)
  {
    hide Carries, PacketTokens, TokensOfAll, ReadsAsRevert;
    RevertItemsRead();
    forall slack: nat -> uint8
      ensures ReadsAsRevert(PacketTokens(packet, slack))
    {
      CarriedTokens(packet, slack, RevertItems());
    }
  }

  lemma AuthenticatePacketReads(packet: seq<uint8>, enterprise: bool, authority: seq<uint8>,
                                secret: Option<seq<uint8>>)
    requires |packet| >= HEADER_SIZE && Carries(packet, AuthenticateItems(enterprise, authority, secret))
    requires IsAtom(authority)
    ensures AsksToAuthenticate(packet, enterprise, authority, secret)
  {
    hide Carries, PacketTokens, TokensOfAll, ReadsAsAuthenticate, IsAtom, TokensOf, Clean, ValidItems;
    AtomToken(authority);
    AuthenticateItemsAreValid(enterprise, authority, secret);
    AuthenticateItemsRead(enterprise, authority, secret);
    forall slack: nat -> uint8
      ensures ReadsAsAuthenticate(PacketTokens(packet, slack), enterprise, authority, secret)
    {
      CarriedTokens(packet, slack, AuthenticateItems(enterprise, authority, secret));
    }
  }
}
