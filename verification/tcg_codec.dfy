/** The token stream as a printer and a parser: what the builder writes and what commit cuts out again. */
module TcgCodec {
  import opened DparmTypes
  import opened TcgTypes
  import opened TcgToken

  /** What a caller can put into a payload. */
  datatype Item =
    | Symbol(code: uint8)
    | Number(value: uint64)
    | Bytes(data: seq<uint8>)
    | Raw(data: seq<uint8>)   // bytes that the caller has encoded

  /** The content width of a number atom that is not tiny. */
  function NumberWidth(v: uint64): (n: nat)
    ensures n in {1, 2, 4, 8} && v < Pow256(n)
  {
    if v < 0x100 then 1 else if v < 0x1_0000 then 2 else if v < 0x1_0000_0000 then 4 else 8
  }

  function EncodeNumber(v: uint64): (e: seq<uint8>) {
    if v < 64 then [v] else [0x80 + NumberWidth(v)] + BEBytes(v, NumberWidth(v))
  }

  /** Strings of 2048 bytes and more have no encoding here: nothing is written. */
  function EncodeBytes(data: seq<uint8>): (e: seq<uint8>) {
    if |data| == 0 then [0xa1, 0x00]
    else if |data| < 16 then [0xa0 + |data|] + data
    else if |data| < 2048 then [0xd0 + |data| / 256, |data| % 256] + data
    else []
  }

  function Encode(item: Item): seq<uint8> {
    match item
    case Symbol(code) => [code]
    case Number(v) => EncodeNumber(v)
    case Bytes(data) => EncodeBytes(data)
    case Raw(data) => data
  }

  /**
   * Symbol items carry a control token or a tiny atom, as anything else would announce contents, and the atoms of
   * raw items end where the item ends.
   */
  predicate ValidItem(item: Item) {
    && (item.Symbol? ==> item.code < 0x80 || item.code >= 0xf0)
    && (item.Raw? ==> Clean(item.data, 0))
  }

  predicate ValidItems(items: seq<Item>) {
    forall k :: 0 <= k < |items| ==> ValidItem(items[k])
  }

  function EncodeAll(items: seq<Item>): seq<uint8> {
    if items == [] then [] else Encode(items[0]) + EncodeAll(items[1..])
  }

  /** The tokens of one item: one, except for raw items, EMPTYATOM and strings that were not written. */
  function TokensOf(item: Item): seq<Token> {
    var e := Encode(item);
    if item.Raw? then Tokenize(e, NO_SLACK, 0, |e|)
    else if e == [] || e == [EMPTYATOM] then [] else [Token(e)]
  }

  function TokensOfAll(items: seq<Item>): seq<Token> {
    if items == [] then [] else TokensOf(items[0]) + TokensOfAll(items[1..])
  }

  /** Byte i of a buffer; slack stands for whatever memory follows it. */
  function At(s: seq<uint8>, slack: nat -> uint8, i: nat): uint8 {
    if i < |s| then s[i] else slack(i)
  }

  function Slice(s: seq<uint8>, slack: nat -> uint8, i: nat, n: nat): (r: seq<uint8>)
    ensures |r| == n
    ensures forall k :: 0 <= k < n ==> r[k] == At(s, slack, i + k)
  {
    if i + n <= |s| then s[i..i + n] else seq<uint8>(n, k requires 0 <= k < n => At(s, slack, i + k))
  }

  /** The length of the token at cur, from its header bytes. */
  function TokenLength(s: seq<uint8>, slack: nat -> uint8, cur: nat): (n: nat)
    ensures n >= 1 && n >= ContentOffset(KindOf(At(s, slack, cur)))
  {
    var b: nat := At(s, slack, cur);
    var b1: nat, b2: nat, b3: nat := At(s, slack, cur + 1), At(s, slack, cur + 2), At(s, slack, cur + 3);
    match KindOf(b)
    case Tiny => 1
    case Short => b % 16 + 1
    case Medium => b % 8 * 256 + b1 + 2
    case Long => b1 * 0x1_0000 + b2 * 0x100 + b3 + 4
    case Control => 1
  }

  /** The contents are as long as the length bytes of the header say, read big-endian. */
  lemma LengthRanges(s: seq<uint8>, slack: nat -> uint8, cur: nat)
    ensures var b, b1, b2, b3 :=
              At(s, slack, cur), At(s, slack, cur + 1), At(s, slack, cur + 2), At(s, slack, cur + 3);
            TokenLength(s, slack, cur) == if b < 0x80 || b >= 0xf0 then 1
                                          else if b < 0xc0 then 1 + NatOfBE([b % 16])
                                          else if b < 0xe0 then 2 + NatOfBE([b % 8, b1])
                                          else 4 + NatOfBE([b1, b2, b3])
  {
    hide At, KindOf;
    var b, b1, b2, b3 := At(s, slack, cur), At(s, slack, cur + 1), At(s, slack, cur + 2), At(s, slack, cur + 3);
    ShortNumbers(b % 16, b1, b2);
    ShortNumbers(b % 8, b1, b2);
    ShortNumbers(b1, b2, b3);
  }

  lemma ShortNumbers(a: uint8, b: uint8, c: uint8)
    ensures NatOfBE([a]) == a && NatOfBE([a, b]) == a * 0x100 + b
    ensures NatOfBE([a, b, c]) == a * 0x1_0000 + b * 0x100 + c
  {
    assert [a][..0] == [] && [a, b][..1] == [a] && [a, b, c][..2] == [a, b];
  }

  /** The tokens between cur and end, EMPTYATOM dropped. */
  function Tokenize(s: seq<uint8>, slack: nat -> uint8, cur: nat, end: nat): (ts: seq<Token>)
    ensures forall k :: 0 <= k < |ts| ==> ts[k].Framed()
    ensures |ts| <= if cur < end then end - cur else 0
    decreases end - cur
  {
    if cur >= end then []
    else
      var n := TokenLength(s, slack, cur);
      var t := Slice(s, slack, cur, n);
      (if t == [EMPTYATOM] then [] else [Token(t)]) + Tokenize(s, slack, cur + n, end)
  }

  const NO_SLACK: nat -> uint8 := i => 0

  /** From k on, b consists of whole atoms and control tokens. */
  predicate Clean(b: seq<uint8>, k: nat)
    decreases |b| - k
  {
    k == |b| || (k + TokenLength(b, NO_SLACK, k) <= |b| && Clean(b, k + TokenLength(b, NO_SLACK, k)))
  }

  lemma TokenLengthOfItem(s: seq<uint8>, slack: nat -> uint8, cur: nat, item: Item)
    requires ValidItem(item) && !item.Raw? && Encode(item) != []
    requires cur + |Encode(item)| <= |s| && s[cur..cur + |Encode(item)|] == Encode(item)
    ensures TokenLength(s, slack, cur) == |Encode(item)|
  {
    hide KindOf, BEBytes, Pow256;
    var e := Encode(item);
    assert At(s, slack, cur) == e[0];
    if |e| >= 2 {
      assert At(s, slack, cur + 1) == e[1];
    }
  }

  /** One item at cur is consumed whole and contributes its own tokens. */
  lemma TokenizeItem(s: seq<uint8>, slack: nat -> uint8, cur: nat, end: nat, item: Item)
    requires ValidItem(item) && cur + |Encode(item)| <= end <= |s|
    requires s[cur..cur + |Encode(item)|] == Encode(item)
    ensures Tokenize(s, slack, cur, end) == TokensOf(item) + Tokenize(s, slack, cur + |Encode(item)|, end)
  {
    hide Encode, TokenLength, KindOf, ContentOffset, Clean, Tokenize;
    var e := Encode(item);
    if item.Raw? {
      RawIsItsData(item);
      TokenizeRaw(s, slack, cur, end, e, 0);
    } else if e != [] {
      TokenLengthOfItem(s, slack, cur, item);
      TokenizeStep(s, slack, cur, end, |e|, e);
    }
  }

  lemma RawIsItsData(item: Item)
    requires item.Raw?
    ensures Encode(item) == item.data
  {}

  /** An atom that ends within b has the length that b alone gives it. */
  lemma TokenLengthIsLocal(s: seq<uint8>, slack: nat -> uint8, cur: nat, b: seq<uint8>, k: nat)
    requires cur + |b| <= |s| && s[cur..cur + |b|] == b && k < |b|
    requires k + TokenLength(b, NO_SLACK, k) <= |b|
    ensures TokenLength(s, slack, cur + k) == TokenLength(b, NO_SLACK, k)
    ensures Slice(s, slack, cur + k, TokenLength(b, NO_SLACK, k)) == Slice(b, NO_SLACK, k, TokenLength(b, NO_SLACK, k))
  {
    hide KindOf;
    assert forall i :: 0 <= i < |b| ==> b[i] == s[cur + i];
  }

  /** Clean bytes tokenise the same wherever they stand. */
  lemma {:induction false} TokenizeRaw(s: seq<uint8>, slack: nat -> uint8, cur: nat, end: nat, b: seq<uint8>, k: nat)
    requires cur + |b| <= end <= |s| && s[cur..cur + |b|] == b && k <= |b| && Clean(b, k)
    ensures Tokenize(s, slack, cur + k, end) == Tokenize(b, NO_SLACK, k, |b|) + Tokenize(s, slack, cur + |b|, end)
    decreases |b| - k
  {
    hide TokenLength, Slice, Tokenize;
    if k == |b| {
      NothingLeft(b, NO_SLACK, k, |b|);
    } else {
      var n := TokenLength(b, NO_SLACK, k);
      var t := Slice(b, NO_SLACK, k, n);
      TokenLengthIsLocal(s, slack, cur, b, k);
      TokenizeStep(s, slack, cur + k, end, n, t);
      TokenizeStep(b, NO_SLACK, k, |b|, n, t);
      TokenizeRaw(s, slack, cur, end, b, k + n);
    }
  }

  /** A string that the caller has encoded is as good as the string. */
  lemma RawOfBytes(data: seq<uint8>)
    ensures ValidItem(Raw(EncodeBytes(data))) && TokensOf(Raw(EncodeBytes(data))) == TokensOf(Bytes(data))
  {
    hide EncodeBytes, TokenLength, Tokenize;
    var e := EncodeBytes(data);
    NothingLeft(e, NO_SLACK, |e|, |e|);
    if e != [] {
      assert e[0..0 + |e|] == e;
      TokenLengthOfItem(e, NO_SLACK, 0, Bytes(data));
      TokenizeItem(e, NO_SLACK, 0, |e|, Bytes(data));
      assert Clean(e, |e|);
    }
  }

  lemma TokenizeStep(s: seq<uint8>, slack: nat -> uint8, cur: nat, end: nat, n: nat, t: seq<uint8>)
    requires cur < end && n == TokenLength(s, slack, cur) && t == Slice(s, slack, cur, n)
    ensures Tokenize(s, slack, cur, end)
         == (if t == [EMPTYATOM] then [] else [Token(t)]) + Tokenize(s, slack, cur + n, end)
  {
    hide TokenLength, Slice, KindOf, ContentOffset, Token.Framed;
  }

  lemma NothingLeft(s: seq<uint8>, slack: nat -> uint8, cur: nat, end: nat)
    requires cur >= end
    ensures Tokenize(s, slack, cur, end) == []
  {}

  lemma SplitSlice(s: seq<uint8>, cur: nat, end: nat, e: seq<uint8>, rest: seq<uint8>)
    requires cur <= end <= |s| && s[cur..end] == e + rest
    ensures s[cur..cur + |e|] == e && s[cur + |e|..end] == rest
  {
    assert s[cur..cur + |e|] == s[cur..end][..|e|];
    assert s[cur + |e|..end] == s[cur..end][|e|..];
  }

  /** Parsing what was printed gives back the tokens, whatever the bytes inside the atoms. */
  lemma {:induction false} TokenizeItems(s: seq<uint8>, slack: nat -> uint8, cur: nat, end: nat, items: seq<Item>)
    requires ValidItems(items) && cur <= end <= |s| && s[cur..end] == EncodeAll(items)
    ensures Tokenize(s, slack, cur, end) == TokensOfAll(items)
    decreases |items|
  {
    hide Encode, TokensOf, Tokenize;
    if items == [] {
      NothingLeft(s, slack, cur, end);
    } else {
      var e, rest := Encode(items[0]), EncodeAll(items[1..]);
      var next := cur + |e|;
      SplitSlice(s, cur, end, e, rest);
      TokenizeItem(s, slack, cur, end, items[0]);
      TokenizeItems(s, slack, next, end, items[1..]);
    }
  }

  lemma OneItem(item: Item)
    ensures EncodeAll([item]) == Encode(item) && TokensOfAll([item]) == TokensOf(item)
  {
    assert [item][1..] == [];
  }

  lemma ConsItem(item: Item, items: seq<Item>)
    ensures EncodeAll([item] + items) == Encode(item) + EncodeAll(items)
    ensures TokensOfAll([item] + items) == TokensOf(item) + TokensOfAll(items)
  {
    assert ([item] + items)[1..] == items;
  }

  lemma {:induction false} EncodeAllAppend(a: seq<Item>, b: seq<Item>)
    ensures EncodeAll(a + b) == EncodeAll(a) + EncodeAll(b)
  {
    if a == [] {
      assert a + b == b;
    } else {
      assert (a + b)[1..] == a[1..] + b;
      EncodeAllAppend(a[1..], b);
    }
  }

  lemma {:induction false} TokensOfAllAppend(a: seq<Item>, b: seq<Item>)
    ensures TokensOfAll(a + b) == TokensOfAll(a) + TokensOfAll(b)
  {
    if a == [] {
      assert a + b == b;
    } else {
      assert (a + b)[1..] == a[1..] + b;
      TokensOfAllAppend(a[1..], b);
    }
  }

  /** EMPTYATOM anywhere between items leaves the tokens as they are. */
  lemma EmptyAtomsVanish(a: seq<Item>, b: seq<Item>)
    ensures TokensOfAll(a + [Symbol(0xff)] + b) == TokensOfAll(a + b)
  {
    TokensOfAllAppend(a + [Symbol(EMPTYATOM)], b);
    TokensOfAllAppend(a, [Symbol(EMPTYATOM)]);
    TokensOfAllAppend(a, b);
  }

  /** Numbers of up to 63 take one byte, others the least of 1, 2, 4 and 8 behind a header; strings one or two more. */
  lemma AtomSizes(v: uint64, data: seq<uint8>)
    ensures |EncodeNumber(v)| == if v < 64 then 1 else if v < 0x100 then 2 else if v < 0x1_0000 then 3
                                 else if v < 0x1_0000_0000 then 5 else 9
    ensures 1 <= |data| < 2048 ==> |EncodeBytes(data)| == |data| + if |data| < 16 then 1 else 2
    ensures |data| >= 2048 ==> EncodeBytes(data) == []
  {
    hide BEBytes, Pow256;
  }

  /** The token has a defined reading as a number, and it is v. */
  predicate ReadsAs(t: Token, v: nat) {
    1 <= |t.buf| <= 9 && t.ReadsAsNumber() && t.Number() == v
  }

  /** A number is one token of type UINT that reads back as the number. */
  lemma NumberRoundTrip(v: uint64)
    ensures TokensOf(Number(v)) == [Token(EncodeNumber(v))]
    ensures ReadsAs(Token(EncodeNumber(v)), v) && Token(EncodeNumber(v)).Type() == TOKENID_UINT
  {
    if v >= 64 {
      WideNumberReads(v, NumberWidth(v));
    }
  }

  lemma WideNumberReads(v: nat, n: nat)
    requires n in {1, 2, 4, 8} && v < Pow256(n)
    ensures var t := Token([0x80 + n] + BEBytes(v, n));
            ReadsAs(t, v) && t.Type() == TOKENID_UINT
  {
    hide BEBytes, NatOfBE, Pow256;
    BERoundTrip(v, n);
    assert ([0x80 + n] + BEBytes(v, n))[1..] == BEBytes(v, n);
  }

  /** A byte string of 1 to 2047 bytes is one token of type BYTESTRING that reads back as the string. */
  lemma BytesRoundTrip(data: seq<uint8>)
    requires 1 <= |data| < 2048
    ensures TokensOf(Bytes(data)) == [Token(EncodeBytes(data))]
    ensures var t := Token(EncodeBytes(data));
            t.Framed() && t.Type() == TOKENID_BYTESTRING && t.GetBytes() == DparmReturn(DparmResult(OK, 0, 0), data)
  {
    var e := EncodeBytes(data);
    assert e[if |data| < 16 then 1 else 2..] == data;
  }

  /** What a receiver reads from the one token of a byte string, if there is one. */
  predicate ReadsBack(data: seq<uint8>) {
    var ts := TokensOf(Bytes(data));
    |ts| == 1 && ts[0].Framed() && ts[0].GetBytes() == DparmReturn(DparmResult(OK, 0, 0), data)
  }

  /** Byte strings survive exactly at these lengths: the empty one changes and longer ones are not written. */
  lemma BytesReadBackIff(data: seq<uint8>)
    ensures ReadsBack(data) <==> 1 <= |data| < 2048
  {
    if 1 <= |data| < 2048 {
      BytesRoundTrip(data);
    } else if data == [] {
      EmptyStringReadsAsZero();
    }
  }

  /** The empty string does not round-trip: its atom reads back as one zero byte. */
  lemma EmptyStringReadsAsZero()
    ensures TokensOf(Bytes([])) == [Token([0xa1, 0x00])]
    ensures Token([0xa1, 0x00]).GetBytes().value == [0]
  {}
}
