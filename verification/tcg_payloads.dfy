/** The payloads of the session and Opal commands, as item lists, and their bracket structure. */
module TcgPayloads {
  import opened DparmTypes
  import opened TcgTypes
  import opened TcgToken
  import opened TcgCodec
  import opened TcgCommand
  import opened TcgResponse
  import opened TcgLoopback

  // UIDs and methods of src/tcg/tcg_constants.cc.
  const SMUID_UID: seq<uint8> := [0x00, 0x00, 0x00, 0x00, 0x00, 0x00, 0x00, 0xff]
  const THISSP_UID: seq<uint8> := [0x00, 0x00, 0x00, 0x00, 0x00, 0x00, 0x00, 0x01]
  const ADMINSP_UID: seq<uint8> := [0x00, 0x00, 0x02, 0x05, 0x00, 0x00, 0x00, 0x01]
  const SID_UID: seq<uint8> := [0x00, 0x00, 0x00, 0x09, 0x00, 0x00, 0x00, 0x06]
  const PSID_UID: seq<uint8> := [0x00, 0x00, 0x00, 0x09, 0x00, 0x01, 0xff, 0x01]
  const METHOD_STARTSESSION: seq<uint8> := [0x00, 0x00, 0x00, 0x00, 0x00, 0x00, 0xff, 0x02]
  const METHOD_REVERT: seq<uint8> := [0x00, 0x00, 0x00, 0x06, 0x00, 0x00, 0x02, 0x02]
  const METHOD_EAUTHENTICATE: seq<uint8> := [0x00, 0x00, 0x00, 0x06, 0x00, 0x00, 0x00, 0x0c]
  const METHOD_GET: seq<uint8> := [0x00, 0x00, 0x00, 0x06, 0x00, 0x00, 0x00, 0x16]
  const METHOD_AUTHENTICATE: seq<uint8> := [0x00, 0x00, 0x00, 0x06, 0x00, 0x00, 0x00, 0x1c]

  const HOST_SESSION_ID: nat := 105
  const STARTCOLUMN: nat := 3
  const ENDCOLUMN: nat := 4
  // "SessionTimeout" and "Challenge" in ASCII.
  const TEXT_SESSION_TIMEOUT: seq<uint8> :=
    [0x53, 0x65, 0x73, 0x73, 0x69, 0x6f, 0x6e, 0x54, 0x69, 0x6d, 0x65, 0x6f, 0x75, 0x74]
  const TEXT_CHALLENGE: seq<uint8> := [0x43, 0x68, 0x61, 0x6c, 0x6c, 0x65, 0x6e, 0x67, 0x65]

  function NameItems(name: Item, value: Item): (items: seq<Item>)
    ensures |items| == 4
  {
    [Symbol(STARTNAME), name, value, Symbol(ENDNAME)]
  }

  function ListItems(body: seq<Item>): seq<Item> {
    [Symbol(STARTLIST)] + body + [Symbol(ENDLIST)]
  }

  function CallItems(obj: Item, methodUid: seq<uint8>): (items: seq<Item>)
    ensures |items| == 3
  {
    [Symbol(CALL), obj, Bytes(methodUid)]
  }

  /**
   * STARTSESSION with an encoded authority: secret is None without a host challenge, timeout None unless
   * enterprise.
   */
  function StartItems(sp: seq<uint8>, secret: Option<seq<uint8>>, authority: seq<uint8>,
                      timeout: Option<uint32>): seq<Item> {
    CallItems(Bytes(SMUID_UID), METHOD_STARTSESSION)
    + ListItems(
        [Number(HOST_SESSION_ID), Bytes(sp), Number(1)]
        + (if secret.Some?
           then NameItems(Number(0), Bytes(secret.value)) + NameItems(Number(3), Raw(authority)) else [])
        + (if timeout.Some? then NameItems(Bytes(TEXT_SESSION_TIMEOUT), Number(timeout.value)) else []))
    + TAIL_ITEMS
  }

  /** AUTHENTICATE as the source builds it: the list it opens is closed with ENDNAME. */
  function AuthenticateItems(enterprise: bool, authority: seq<uint8>, secret: Option<seq<uint8>>): seq<Item> {
    var name := if enterprise then Bytes(TEXT_CHALLENGE) else Number(0);
    var body := [Raw(authority)] + (if secret.Some? then NameItems(name, Bytes(secret.value)) else []);
    CallItems(Bytes(THISSP_UID), if enterprise then METHOD_EAUTHENTICATE else METHOD_AUTHENTICATE)
    + ([Symbol(STARTLIST)] + (body + ([Symbol(ENDNAME)] + TAIL_ITEMS)))
  }

  /** GET over a column range of a table with an encoded UID. */
  function GetTableItems(table: seq<uint8>, startCol: uint16, endCol: uint16): seq<Item> {
    CallItems(Raw(table), METHOD_GET)
    + ListItems(ListItems(
        NameItems(Number(STARTCOLUMN), Number(startCol)) + NameItems(Number(ENDCOLUMN), Number(endCol))))
    + TAIL_ITEMS
  }

  function RevertItems(): seq<Item> {
    CallItems(Bytes(ADMINSP_UID), METHOD_REVERT) + ListItems([]) + TAIL_ITEMS
  }

  /** Reads a token list against a stack of open brackets; None when a bracket closes the wrong thing. */
  function Nest(ts: seq<Token>, stack: seq<uint8>): Option<seq<uint8>> {
    if ts == [] then Some(stack)
    else if |ts[0].buf| == 0 then None
    else
      var b := ts[0].Type();
      if b == STARTLIST || b == STARTNAME then Nest(ts[1..], [b] + stack)
      else if b == ENDLIST then
        if stack != [] && stack[0] == STARTLIST then Nest(ts[1..], stack[1..]) else None
      else if b == ENDNAME then
        if stack != [] && stack[0] == STARTNAME then Nest(ts[1..], stack[1..]) else None
      else Nest(ts[1..], stack)
  }

  /** Every list and name opened is closed by its own kind of bracket. */
  predicate WellNested(ts: seq<Token>) {
    Nest(ts, []) == Some([])
  }

  /** The items leave any open brackets as they are. */
  ghost predicate Balanced(items: seq<Item>) {
    forall stack :: Nest(TokensOfAll(items), stack) == Some(stack)
  }

  lemma {:induction false} NestAppend(a: seq<Token>, b: seq<Token>, stack: seq<uint8>)
    ensures Nest(a + b, stack) == match Nest(a, stack) case None => None case Some(st) => Nest(b, st)
    decreases |a|
  {
    if a == [] {
      assert a + b == b;
    } else {
      assert (a + b)[1..] == a[1..] + b && (a + b)[0] == a[0];
      if |a[0].buf| > 0 {
        var c := a[0].Type();
        NestAppend(a[1..], b, stack);
        NestAppend(a[1..], b, [c] + stack);
        if stack != [] {
          NestAppend(a[1..], b, stack[1..]);
        }
      }
    }
  }

  lemma BalancedAppend(a: seq<Item>, b: seq<Item>)
    requires Balanced(a) && Balanced(b)
    ensures Balanced(a + b)
  {
    TokensOfAllAppend(a, b);
    forall stack
      ensures Nest(TokensOfAll(a + b), stack) == Some(stack)
    {
      NestAppend(TokensOfAll(a), TokensOfAll(b), stack);
    }
  }

  /** An atom is never a bracket, whatever bytes it holds. */
  lemma AtomIsBalanced(item: Item)
    requires !item.Raw? && (item.Symbol? ==> item.code !in {STARTLIST, ENDLIST, STARTNAME, ENDNAME})
    requires ValidItem(item)
    ensures Balanced([item])
  {
    OneItem(item);
    var ts := TokensOf(item);
    if ts != [] {
      assert |ts[0].buf| >= 1 && ts[0].Type() !in {STARTLIST, ENDLIST, STARTNAME, ENDNAME};
      assert ts[1..] == [];
    }
  }

  /** What a bracket pair encloses may be any balanced items. */
  lemma WrapIsBalanced(open: uint8, body: seq<Item>, close: uint8)
    requires Balanced(body)
    requires (open == STARTLIST && close == ENDLIST) || (open == STARTNAME && close == ENDNAME)
    ensures Balanced([Symbol(open)] + body + [Symbol(close)])
  {
    var o, c := [Token([open])], [Token([close])];
    OneItem(Symbol(open));
    OneItem(Symbol(close));
    assert TokensOfAll([Symbol(open)]) == o && TokensOfAll([Symbol(close)]) == c;
    TokensOfAllAppend([Symbol(open)], body);
    TokensOfAllAppend([Symbol(open)] + body, [Symbol(close)]);
    forall stack
      ensures Nest(TokensOfAll([Symbol(open)] + body + [Symbol(close)]), stack) == Some(stack)
    {
      NestAppend(o + TokensOfAll(body), c, stack);
      NestAppend(o, TokensOfAll(body), stack);
      assert Nest(o, stack) == Some([open] + stack);
      assert Nest(c, [open] + stack) == Some(stack);
    }
  }

  /** So is a string that the caller has encoded. */
  lemma EncodedIsBalanced(data: seq<uint8>)
    ensures Balanced([Raw(EncodeBytes(data))])
  {
    hide Nest, TokensOf, EncodeBytes;
    AtomIsBalanced(Bytes(data));
    RawOfBytes(data);
    OneItem(Bytes(data));
    OneItem(Raw(EncodeBytes(data)));
  }

  lemma NameIsBalanced(name: Item, value: Item)
    requires Balanced([name]) && Balanced([value])
    ensures Balanced(NameItems(name, value))
  {
    hide Balanced;
    BalancedAppend([name], [value]);
    WrapIsBalanced(STARTNAME, [name] + [value], ENDNAME);
    assert NameItems(name, value) == [Symbol(STARTNAME)] + ([name] + [value]) + [Symbol(ENDNAME)];
  }

  /** A name-value pair of atoms. */
  lemma NameOfAtoms(name: Item, value: Item)
    requires !name.Symbol? && !value.Symbol? && !name.Raw? && !value.Raw?
    ensures Balanced(NameItems(name, value))
  {
    hide Balanced;
    AtomIsBalanced(name);
    AtomIsBalanced(value);
    NameIsBalanced(name, value);
  }

  lemma ListIsBalanced(body: seq<Item>)
    requires Balanced(body)
    ensures Balanced(ListItems(body))
  {
    WrapIsBalanced(STARTLIST, body, ENDLIST);
  }

  lemma EmptyIsBalanced()
    ensures Balanced([])
  {}

  lemma ThreeAreBalanced(a: Item, b: Item, c: Item)
    requires Balanced([a]) && Balanced([b]) && Balanced([c])
    ensures Balanced([a, b, c])
  {
    hide Balanced;
    BalancedAppend([a], [b]);
    BalancedAppend([a] + [b], [c]);
    assert [a, b, c] == [a] + [b] + [c];
  }

  lemma AtomsAreBalanced(a: Item, b: Item, c: Item)
    requires !a.Symbol? && !b.Symbol? && !c.Symbol? && !a.Raw? && !b.Raw? && !c.Raw?
    ensures Balanced([a, b, c])
  {
    hide Balanced;
    AtomIsBalanced(a);
    AtomIsBalanced(b);
    AtomIsBalanced(c);
    ThreeAreBalanced(a, b, c);
  }

  lemma TailIsBalanced()
    ensures Balanced(TAIL_ITEMS)
  {
    hide Balanced;
    AtomIsBalanced(Symbol(ENDOFDATA));
    AtomsAreBalanced(Number(0), Number(0), Number(0));
    ListIsBalanced([Number(0), Number(0), Number(0)]);
    BalancedAppend([Symbol(ENDOFDATA)], ListItems([Number(0), Number(0), Number(0)]));
    assert TAIL_ITEMS == [Symbol(ENDOFDATA)] + ListItems([Number(0), Number(0), Number(0)]);
  }

  lemma CallItemsAreBalanced(obj: Item, methodUid: seq<uint8>)
    requires Balanced([obj])
    ensures Balanced(CallItems(obj, methodUid))
  {
    hide Balanced;
    AtomIsBalanced(Symbol(CALL));
    AtomIsBalanced(Bytes(methodUid));
    ThreeAreBalanced(Symbol(CALL), obj, Bytes(methodUid));
  }

  /** A call, one balanced argument list and the tail. */
  lemma CallIsBalanced(obj: Item, methodUid: seq<uint8>, body: seq<Item>)
    requires Balanced([obj]) && Balanced(body)
    ensures Balanced(CallItems(obj, methodUid) + ListItems(body) + TAIL_ITEMS)
  {
    hide Balanced;
    CallItemsAreBalanced(obj, methodUid);
    ListIsBalanced(body);
    TailIsBalanced();
    BalancedAppend(CallItems(obj, methodUid), ListItems(body));
    BalancedAppend(CallItems(obj, methodUid) + ListItems(body), TAIL_ITEMS);
  }

  /** STARTSESSION is well nested for every SP, secret, authority UID and timeout. */
  lemma StartIsWellNested(sp: seq<uint8>, secret: Option<seq<uint8>>, uid: seq<uint8>, timeout: Option<uint32>)
    ensures WellNested(TokensOfAll(StartItems(sp, secret, EncodeBytes(uid), timeout)))
  {
    var head := [Number(HOST_SESSION_ID), Bytes(sp), Number(1)];
    var authority := Raw(EncodeBytes(uid));
    var login :=
      if secret.Some? then NameItems(Number(0), Bytes(secret.value)) + NameItems(Number(3), authority) else [];
    var limit := if timeout.Some? then NameItems(Bytes(TEXT_SESSION_TIMEOUT), Number(timeout.value)) else [];
    assert Balanced([Bytes(SMUID_UID)]) && Balanced(head + login + limit) by {
      hide Balanced;
      AtomIsBalanced(Bytes(SMUID_UID));
      AtomsAreBalanced(Number(HOST_SESSION_ID), Bytes(sp), Number(1));
      EmptyIsBalanced();
      if secret.Some? {
        NameOfAtoms(Number(0), Bytes(secret.value));
        AtomIsBalanced(Number(3));
        EncodedIsBalanced(uid);
        NameIsBalanced(Number(3), authority);
        BalancedAppend(NameItems(Number(0), Bytes(secret.value)), NameItems(Number(3), authority));
      }
      if timeout.Some? {
        NameOfAtoms(Bytes(TEXT_SESSION_TIMEOUT), Number(timeout.value));
      }
      BalancedAppend(head, login);
      BalancedAppend(head + login, limit);
    }
    CallIsBalanced(Bytes(SMUID_UID), METHOD_STARTSESSION, head + login + limit);
  }

  /** GET is well nested for every table UID and column range. */
  lemma GetTableIsWellNested(uid: seq<uint8>, startCol: uint16, endCol: uint16)
    ensures WellNested(TokensOfAll(GetTableItems(EncodeBytes(uid), startCol, endCol)))
  {
    var a, b := NameItems(Number(STARTCOLUMN), Number(startCol)), NameItems(Number(ENDCOLUMN), Number(endCol));
    assert Balanced([Raw(EncodeBytes(uid))]) && Balanced(ListItems(a + b)) by {
      hide Balanced;
      EncodedIsBalanced(uid);
      NameOfAtoms(Number(STARTCOLUMN), Number(startCol));
      NameOfAtoms(Number(ENDCOLUMN), Number(endCol));
      BalancedAppend(a, b);
      ListIsBalanced(a + b);
    }
    CallIsBalanced(Raw(EncodeBytes(uid)), METHOD_GET, ListItems(a + b));
  }

  lemma RevertIsWellNested()
    ensures WellNested(TokensOfAll(RevertItems()))
  {
    EmptyIsBalanced();
    AtomIsBalanced(Bytes(ADMINSP_UID));
    CallIsBalanced(Bytes(ADMINSP_UID), METHOD_REVERT, []);
  }

  /** The tokens of an authority's bytes turn the open list into an open name. */
  predicate TurnsListIntoName(authority: seq<uint8>) {
    Nest(TokensOf(Raw(authority)), [STARTLIST]) == Some([STARTNAME])
  }

  /**
   * AUTHENTICATE closes its list with ENDNAME, so it is well nested exactly when the bytes given for the authority
   * turn the open list into an open name.
   */
  lemma AuthenticateNestsIff(enterprise: bool, authority: seq<uint8>, secret: Option<seq<uint8>>)
    ensures WellNested(TokensOfAll(AuthenticateItems(enterprise, authority, secret))) <==> TurnsListIntoName(authority)
  {
    var call := CallItems(Bytes(THISSP_UID), if enterprise then METHOD_EAUTHENTICATE else METHOD_AUTHENTICATE);
    var name := if enterprise then Bytes(TEXT_CHALLENGE) else Number(0);
    var login := if secret.Some? then NameItems(name, Bytes(secret.value)) else [];
    hide Nest;
    assert Balanced(call) && Balanced(login) && Balanced(TAIL_ITEMS) by {
      hide Balanced;
      AtomIsBalanced(Bytes(THISSP_UID));
      CallItemsAreBalanced(Bytes(THISSP_UID), call[2].data);
      EmptyIsBalanced();
      if secret.Some? {
        NameOfAtoms(name, Bytes(secret.value));
      }
      TailIsBalanced();
    }
    MisclosedList(call, authority, login, TAIL_ITEMS);
  }

  /** A list closed with ENDNAME, around raw bytes and balanced items. */
  lemma MisclosedList(call: seq<Item>, raw: seq<uint8>, login: seq<Item>, tail: seq<Item>)
    requires Balanced(call) && Balanced(login) && Balanced(tail)
    ensures var items := call + ([Symbol(STARTLIST)] + (([Raw(raw)] + login) + ([Symbol(ENDNAME)] + tail)));
            WellNested(TokensOfAll(items)) <==> TurnsListIntoName(raw)
  {
    hide TokensOf, TokensOfAll, Nest;
    var end := [Symbol(ENDNAME)] + tail;
    var rest := ([Raw(raw)] + login) + end;
    OpensList(call, rest);
    NestItemsAppend([Raw(raw)] + login, end, [STARTLIST]);
    NestItemsAppend([Raw(raw)], login, [STARTLIST]);
    OneItem(Raw(raw));
    var after := Nest(TokensOf(Raw(raw)), [STARTLIST]);
    if after.Some? {
      assert Nest(TokensOfAll(login), after.value) == Some(after.value);
      ClosesName(tail, after.value);
      if after.value != [] && after.value[1..] == [] {
        assert after.value == [after.value[0]];
      }
    }
  }

  lemma NestItemsAppend(a: seq<Item>, b: seq<Item>, stack: seq<uint8>)
    ensures Nest(TokensOfAll(a + b), stack)
         == match Nest(TokensOfAll(a), stack) case None => None case Some(st) => Nest(TokensOfAll(b), st)
  {
    hide Nest, TokensOfAll;
    TokensOfAllAppend(a, b);
    NestAppend(TokensOfAll(a), TokensOfAll(b), stack);
  }

  lemma OpensList(call: seq<Item>, rest: seq<Item>)
    requires Balanced(call)
    ensures Nest(TokensOfAll(call + ([Symbol(STARTLIST)] + rest)), []) == Nest(TokensOfAll(rest), [STARTLIST])
  {
    hide TokensOfAll;
    NestItemsAppend(call, [Symbol(STARTLIST)] + rest, []);
    NestItemsAppend([Symbol(STARTLIST)], rest, []);
    OneItem(Symbol(STARTLIST));
    assert TokensOf(Symbol(STARTLIST)) == [Token([STARTLIST])];
    assert Nest([Token([STARTLIST])], []) == Some([STARTLIST]);
  }

  lemma ClosesName(tail: seq<Item>, stack: seq<uint8>)
    requires Balanced(tail)
    ensures Nest(TokensOfAll([Symbol(ENDNAME)] + tail), stack)
         == if stack != [] && stack[0] == STARTNAME then Some(stack[1..]) else None
  {
    hide TokensOfAll;
    NestItemsAppend([Symbol(ENDNAME)], tail, stack);
    OneItem(Symbol(ENDNAME));
    assert TokensOf(Symbol(ENDNAME)) == [Token([ENDNAME])];
    assert [Token([ENDNAME])][1..] == [];
  }

  /** An encoded string never does that: with the UID overloads AUTHENTICATE is never well nested. */
  lemma AuthenticateIsNeverWellNested(enterprise: bool, uid: seq<uint8>, secret: Option<seq<uint8>>)
    ensures !WellNested(TokensOfAll(AuthenticateItems(enterprise, EncodeBytes(uid), secret)))
  {
    hide WellNested, AuthenticateItems, EncodeBytes, TokensOf;
    AuthenticateNestsIff(enterprise, EncodeBytes(uid), secret);
    EncodedIsBalanced(uid);
    OneItem(Raw(EncodeBytes(uid)));
  }

  /** Two stray brackets for an authority make it well nested. */
  lemma StrayBracketsNest(enterprise: bool, secret: Option<seq<uint8>>)
    ensures ValidItem(Raw([ENDLIST, STARTNAME]))
    ensures WellNested(TokensOfAll(AuthenticateItems(enterprise, [ENDLIST, STARTNAME], secret)))
  {
    hide WellNested, AuthenticateItems, Nest, TokensOf;
    AuthenticateNestsIff(enterprise, [ENDLIST, STARTNAME], secret);
    StrayTokens();
    StrayNest();
  }

  lemma StrayTokens()
    ensures ValidItem(Raw([ENDLIST, STARTNAME]))
    ensures TokensOf(Raw([ENDLIST, STARTNAME])) == [Token([ENDLIST]), Token([STARTNAME])]
  {
    hide Tokenize;
    var b: seq<uint8> := [ENDLIST, STARTNAME];
    NothingLeft(b, NO_SLACK, 2, 2);
    TokenizeStep(b, NO_SLACK, 1, 2, 1, [STARTNAME]);
    TokenizeStep(b, NO_SLACK, 0, 2, 1, [ENDLIST]);
    assert Clean(b, 2) && Clean(b, 1);
  }

  lemma StrayNest()
    ensures Nest([Token([ENDLIST]), Token([STARTNAME])], [STARTLIST]) == Some([STARTNAME])
  {
    var ts := [Token([ENDLIST]), Token([STARTNAME])];
    assert ts[1..][1..] == [] && [STARTLIST][1..] == [];
    assert ts[1..][0].Type() == STARTNAME && [STARTNAME] + [] == [STARTNAME];
    assert Nest(ts[1..], []) == Nest(ts[1..][1..], [STARTNAME] + []);
  }

  // ---- From items to packets ----------------------------------------------------------------------------

  /** A packet whose data subpacket holds exactly the encoded items. */
  predicate Carries(packet: seq<uint8>, items: seq<Item>) {
    var body := EncodeAll(items);
    56 + |body| <= |packet| && FromBE32(packet[52..56]) == |body| && packet[56..56 + |body|] == body
  }

  /** The tokens a receiver cuts from a packet, with the length at byte 52 of the header. */
  function PacketTokens(packet: seq<uint8>, slack: nat -> uint8): seq<Token>
    requires |packet| >= HEADER_SIZE
  {
    Tokenize(packet, slack, 56, 56 + FromBE32(packet[52..56]))
  }

  lemma CarriedTokens(packet: seq<uint8>, slack: nat -> uint8, items: seq<Item>)
    requires |packet| >= HEADER_SIZE && Carries(packet, items) && ValidItems(items)
    ensures PacketTokens(packet, slack) == TokensOfAll(items)
  {
    TokenizeItems(packet, slack, HEADER_SIZE, HEADER_SIZE + |EncodeAll(items)|, items);
  }

  lemma StartItemsAreValid(sp: seq<uint8>, secret: Option<seq<uint8>>, authority: seq<uint8>, timeout: Option<uint32>)
    requires ValidItem(Raw(authority))
    ensures ValidItems(StartItems(sp, secret, authority, timeout))
  {
    hide Clean;
  }

  lemma GetTableItemsAreValid(table: seq<uint8>, startCol: uint16, endCol: uint16)
    requires ValidItem(Raw(table))
    ensures ValidItems(GetTableItems(table, startCol, endCol))
  {
    hide Clean;
  }

  lemma AuthenticateItemsAreValid(enterprise: bool, authority: seq<uint8>, secret: Option<seq<uint8>>)
    requires Clean(authority, 0)
    ensures ValidItems(AuthenticateItems(enterprise, authority, secret))
  {
    hide Clean;
  }

  /** The packets of start tokenise to well-nested brackets on any receiver. */
  lemma StartPacketIsWellNested(packet: seq<uint8>, slack: nat -> uint8, sp: seq<uint8>, secret: Option<seq<uint8>>,
                                uid: seq<uint8>, timeout: Option<uint32>)
    requires |packet| >= HEADER_SIZE && Carries(packet, StartItems(sp, secret, EncodeBytes(uid), timeout))
    ensures WellNested(PacketTokens(packet, slack))
  {
    hide *;
    StartIsWellNested(sp, secret, uid, timeout);
    RawOfBytes(uid);
    StartItemsAreValid(sp, secret, EncodeBytes(uid), timeout);
    CarriedTokens(packet, slack, StartItems(sp, secret, EncodeBytes(uid), timeout));
  }

  /** So do the packets of opalGetTable. */
  lemma GetTablePacketIsWellNested(packet: seq<uint8>, slack: nat -> uint8, uid: seq<uint8>, startCol: uint16,
                                   endCol: uint16)
    requires |packet| >= HEADER_SIZE && Carries(packet, GetTableItems(EncodeBytes(uid), startCol, endCol))
    ensures WellNested(PacketTokens(packet, slack))
  {
    hide *;
    GetTableIsWellNested(uid, startCol, endCol);
    RawOfBytes(uid);
    GetTableItemsAreValid(EncodeBytes(uid), startCol, endCol);
    CarriedTokens(packet, slack, GetTableItems(EncodeBytes(uid), startCol, endCol));
  }

  /** And those of revertTPer. */
  lemma RevertPacketIsWellNested(packet: seq<uint8>, slack: nat -> uint8)
    requires |packet| >= HEADER_SIZE && Carries(packet, RevertItems())
    ensures WellNested(PacketTokens(packet, slack))
  {
    hide Carries, WellNested, PacketTokens, TokensOfAll, EncodeAll;
    RevertIsWellNested();
    CarriedTokens(packet, slack, RevertItems());
  }

  /** Those of authenticate do so exactly for the bytes above, as long as these are whole tokens. */
  lemma AuthenticatePacketNestsIff(packet: seq<uint8>, slack: nat -> uint8, enterprise: bool, authority: seq<uint8>,
                                   secret: Option<seq<uint8>>)
    requires |packet| >= HEADER_SIZE && Carries(packet, AuthenticateItems(enterprise, authority, secret))
    requires Clean(authority, 0)
    ensures WellNested(PacketTokens(packet, slack)) <==> TurnsListIntoName(authority)
  {
    hide Carries, WellNested, PacketTokens, TokensOfAll, EncodeAll, Clean, TurnsListIntoName, AuthenticateItems;
    AuthenticateNestsIff(enterprise, authority, secret);
    AuthenticateItemsAreValid(enterprise, authority, secret);
    CarriedTokens(packet, slack, AuthenticateItems(enterprise, authority, secret));
  }

  // ---- Building item by item ----------------------------------------------------------------------------

  /** The encoded items fit one command buffer. */
  predicate FitsBuffer(items: seq<Item>) {
    HEADER_SIZE + |EncodeAll(items)| <= MAX_BUFFER_LENGTH
  }

  /** The builder holds exactly these items so far, provided that they fit. */
  ghost predicate Built(cmd: TcgCommandImpl, items: seq<Item>)
    reads cmd, cmd.buf
  {
    cmd.Valid() && (FitsBuffer(items) ==> cmd.Payload() == EncodeAll(items))
  }

  lemma EncodeOneMore(items: seq<Item>, item: Item)
    ensures EncodeAll(items + [item]) == EncodeAll(items) + Encode(item)
    ensures FitsBuffer(items + [item]) ==> FitsBuffer(items)
  {
    EncodeAllAppend(items, [item]);
    OneItem(item);
  }

  /** A token call: addToken, addNumberToken, addStringToken or addRawToken, by the item. */
  method Add(cmd: TcgCommandImpl, item: Item, ghost items: seq<Item>) returns (ghost more: seq<Item>)
    requires cmd.Valid()
    modifies cmd, cmd.buf
    ensures cmd.Valid() && cmd.Header() == old(cmd.Header())
    ensures more == items + [item]
    ensures old(Built(cmd, items)) ==> Built(cmd, more)
  {
    hide TcgCommandImpl.Valid, TcgCommandImpl.Payload, TcgCommandImpl.Header, TcgCommandImpl.Room, EncodeNumber,
         EncodeBytes, EncodeAll;
    more := items + [item];
    EncodeOneMore(items, item);
    cmd.PosFromPayload();
    match item
    case Symbol(code) => var ok := cmd.AddByteToken(code);
    case Number(v) => var ok := cmd.AddNumberToken(v);
    case Bytes(data) => var ok := cmd.AddStringToken(data, |data|);
    case Raw(data) => var ok := cmd.AddRawToken(data);
  }

  /** A name-value pair between STARTNAME and ENDNAME. */
  method AddName(cmd: TcgCommandImpl, name: Item, value: Item, ghost items: seq<Item>) returns (ghost more: seq<Item>)
    requires cmd.Valid()
    modifies cmd, cmd.buf
    ensures cmd.Valid() && cmd.Header() == old(cmd.Header())
    ensures more == items + NameItems(name, value)
    ensures old(Built(cmd, items)) ==> Built(cmd, more)
  {
    hide TcgCommandImpl.Valid, TcgCommandImpl.Payload, TcgCommandImpl.Header, Built;
    var m1 := Add(cmd, Symbol(STARTNAME), items);
    var m2 := Add(cmd, name, m1);
    var m3 := Add(cmd, value, m2);
    more := Add(cmd, Symbol(ENDNAME), m3);
    assert more == items + NameItems(name, value);
  }

  /** reset(uid, method) starts a command. */
  method Begin(cmd: TcgCommandImpl, uid: seq<uint8>, methodUid: seq<uint8>) returns (ghost items: seq<Item>)
    requires cmd.Valid() && |uid| == 8 && |methodUid| == 8
    modifies cmd, cmd.buf
    ensures cmd.Valid() && Built(cmd, items) && items == CallItems(Bytes(uid), methodUid)
    ensures cmd.Header() == TcgCommand.Zeros(HEADER_SIZE)
  {
    hide TcgCommandImpl.Valid, TcgCommandImpl.Payload, TcgCommandImpl.Header, Encode, EncodeAll;
    cmd.ResetUid(uid, methodUid);
    items := CallItems(Bytes(uid), methodUid);
    BytesEncode(uid);
    CallEncodes(Bytes(uid), methodUid);
  }

  /** reset(table, method) with an already encoded object. */
  method BeginRaw(cmd: TcgCommandImpl, table: seq<uint8>, methodUid: seq<uint8>) returns (ghost items: seq<Item>)
    requires cmd.Valid() && |methodUid| == 8
    modifies cmd, cmd.buf
    ensures cmd.Valid() && cmd.Header() == TcgCommand.Zeros(HEADER_SIZE)
    ensures items == CallItems(Raw(table), methodUid) && Built(cmd, items)
  {
    hide TcgCommandImpl.Valid, TcgCommandImpl.Payload, TcgCommandImpl.Header, Encode, EncodeAll;
    cmd.ResetRaw(table, methodUid);
    items := CallItems(Raw(table), methodUid);
    RawIsItsData(Raw(table));
    CallEncodes(Raw(table), methodUid);
  }

  lemma BytesEncode(data: seq<uint8>)
    ensures Encode(Bytes(data)) == EncodeBytes(data)
  {}

  lemma CallEncodes(obj: Item, methodUid: seq<uint8>)
    ensures EncodeAll(CallItems(obj, methodUid)) == [CALL] + Encode(obj) + EncodeBytes(methodUid)
  {
    hide EncodeAll;
    OneItem(Bytes(methodUid));
    ConsItem(obj, [Bytes(methodUid)]);
    ConsItem(Symbol(CALL), [obj, Bytes(methodUid)]);
    assert [obj, Bytes(methodUid)] == [obj] + [Bytes(methodUid)];
    assert CallItems(obj, methodUid) == [Symbol(CALL)] + [obj, Bytes(methodUid)];
  }

  /** complete(): afterwards the outgoing packet carries the items and the tail, exactly if they fit. */
  method Finish(cmd: TcgCommandImpl, ghost items: seq<Item>)
    requires cmd.Valid()
    modifies cmd, cmd.buf
    ensures cmd.Valid()
    ensures old(Built(cmd, items)) ==> (Completed(cmd, items + TAIL_ITEMS) <==> FitsBuffer(items + TAIL_ITEMS))
  {
    hide TcgCommandImpl.Valid, TcgCommandImpl.Payload, TcgCommandImpl.Header, TcgCommandImpl.Room, Stamped,
         EncodeAll, AlignPad, Patched;
    ghost var built := Built(cmd, items) && FitsBuffer(items + TAIL_ITEMS);
    TailIsItems();
    EncodeAllAppend(items, TAIL_ITEMS);
    cmd.PosFromPayload();
    var ok := cmd.Complete(true);
    cmd.PosFromPayload();
    if built {
      LengthsNest(old(cmd.Header()), |EncodeAll(items + TAIL_ITEMS)|);
    }
  }

  /** The items and their alignment are in place and the length field covers the items. */
  ghost predicate Completed(cmd: TcgCommandImpl, items: seq<Item>)
    reads cmd, cmd.buf
  {
    && cmd.Valid()
    && EncodeAll(items) <= cmd.Payload()
    && LengthAt(cmd.Header(), AT_SUBPACKET_LENGTH) == |EncodeAll(items)|
  }

  // ---- What fits ------------------------------------------------------------------------------------------

  const MAX_ENCODED: nat := 2049

  /** No raw item is longer than the longest other. */
  predicate Short(items: seq<Item>) {
    forall k :: 0 <= k < |items| ==> items[k].Raw? ==> |items[k].data| <= MAX_ENCODED
  }

  lemma {:induction false} ShortItemsBound(items: seq<Item>)
    requires Short(items)
    ensures |EncodeAll(items)| <= MAX_ENCODED * |items|
    decreases |items|
  {
    if items != [] {
      EncodedBound(items[0]);
      hide Encode;
      ShortItemsBound(items[1..]);
    }
  }

  lemma EncodedBound(item: Item)
    requires item.Raw? ==> |item.data| <= MAX_ENCODED
    ensures |Encode(item)| <= MAX_ENCODED
  {}

  /** The payloads of the commands fit for every password, unless raw bytes are longer than any string. */
  lemma StartFits(sp: seq<uint8>, secret: Option<seq<uint8>>, authority: seq<uint8>, timeout: Option<uint32>)
    requires |authority| <= MAX_ENCODED
    ensures FitsBuffer(StartItems(sp, secret, authority, timeout))
  {
    hide EncodeAll;
    ShortItemsBound(StartItems(sp, secret, authority, timeout));
  }

  lemma AuthenticateFits(enterprise: bool, authority: seq<uint8>, secret: Option<seq<uint8>>)
    requires |authority| <= MAX_ENCODED
    ensures FitsBuffer(AuthenticateItems(enterprise, authority, secret))
  {
    hide EncodeAll;
    ShortItemsBound(AuthenticateItems(enterprise, authority, secret));
  }

  lemma GetTableFits(table: seq<uint8>, startCol: uint16, endCol: uint16)
    requires |table| <= MAX_ENCODED
    ensures FitsBuffer(GetTableItems(table, startCol, endCol))
  {
    hide EncodeAll;
    ShortItemsBound(GetTableItems(table, startCol, endCol));
  }

  lemma RevertFits()
    ensures FitsBuffer(RevertItems())
  {
    hide EncodeAll;
    ShortItemsBound(RevertItems());
  }
}
