/** Inputs of one record, read by the classes: which variable a tag sets, what a varint
    means as a bool or an int64, and which error a broken record gives. */
module SingleRecords {
  import opened Wire
  import opened WireLaws
  import opened Codec
  import opened Lexing
  import opened RoundTrip
  import opened Records
  import opened Fields
  import opened DenominationsParams
  import opened DexTrade

  /** One whole record of the wire type of its field is accepted. */
  lemma OneKnownTree(discard: bool, s: Schema, t: Tree, x: Message)
    requires WellFormed(t) && |Print(t)| < INT_LIMIT && NumberOf(t) < 0x8000_0000 && Knows(s, NumberOf(t))
    requires |x.fields| == |s|
    requires var kind := s[NumberOf(t) - 1];
             if t.Delimited? then kind.KBytes? || kind.KRepeated? else t.Varint64? && (kind.KUint64? || kind.KBool?)
    ensures Decode(discard, s, Print(t), 0, x).Ok?
  {
    hide Decode, Lex, IsVarint, Groups;
    var b, i, num := Print(t), |t.tag|, NumberOf(t);
    VarintNotEmpty(t.tag);
    assert b[0..i] == t.tag;
    if t.Delimited? {
      var j := i + |t.prefix|;
      VarintNotEmpty(t.prefix);
      assert b[i..j] == Body(t)[..|t.prefix|] == t.prefix;
      PayloadRead(s, b, 0, i, j, num);
      OneRecord(discard, s, b, 0, x, Payload(num - 1, b[j..|b|]));
    } else {
      VarintNotEmpty(t.v);
      assert b[i..|b|] == t.v;
      ScalarRead(s, b, 0, i, |b|, num);
      OneRecord(discard, s, b, 0, x, Scalar(num - 1, Uint64(t.v)));
    }
  }

  /** A one-byte tag. */
  lemma SmallTagIs(num: nat, wireType: nat)
    requires 1 <= num <= 15 && wireType < 8
    ensures IsTag([8 * num + wireType], wireType) && Uint64([8 * num + wireType]) / 8 % 0x1_0000_0000 == num
  {
    var raw: Bytes := [8 * num + wireType];
    assert Groups(raw[1..]) == 0;
    assert Groups(raw) == 8 * num + wireType;
  }

  lemma SmallPayload(num: nat, p: Bytes) returns (t: Tree)
    requires 1 <= num <= 15 && |p| < INT_LIMIT
    ensures t == Delimited([8 * num + 2], Varint(|p|), p) && WellFormed(t) && NumberOf(t) == num
    ensures Print(t) == [8 * num + 2] + Varint(|p|) + p
  {
    hide Varint, IsVarint, Uint64, IsTag;
    t := Delimited([8 * num + 2], Varint(|p|), p);
    SmallTagIs(num, 2);
    MinimalIsVarint(|p|);
    assert [8 * num + 2] + (Varint(|p|) + p) == [8 * num + 2] + Varint(|p|) + p;
  }

  lemma SmallVarint(num: nat, raw: Bytes) returns (t: Tree)
    requires 1 <= num <= 15 && IsVarint(raw)
    ensures t == Varint64([8 * num], raw) && WellFormed(t) && NumberOf(t) == num
    ensures Print(t) == [8 * num] + raw && |Print(t)| <= 11
  {
    hide Uint64, IsTag;
    t := Varint64([8 * num], raw);
    SmallTagIs(num, 0);
  }

  /** Tag 0x22 sets the mint limit of a KCoin and nothing else. */
  method ReadMintLimit(x: KCoin, p: Bytes) returns (err: Option<Error>)
    requires |p| < INT_LIMIT - 11
    modifies x
    ensures err == None && x.maxMintAmount == p
    ensures x.denom == old(x.denom) && x.references == old(x.references) && x.maxSupply == old(x.maxSupply)
    ensures x.maxBurnAmount == old(x.maxBurnAmount) && x.unknownFields == old(x.unknownFields)
  {
    hide Decode, Varint, Contents, Others, Print, WellFormed, NumberOf;
    ghost var t := SmallPayload(4, p);
    LengthOfVarint(|p|);
    forall num: nat | 1 <= num <= 5
      ensures Contents(Print(t), num) == if num == 4 then [p] else []
    {
      OneTree(t, num, {});
    }
    OneTree(t, 4, {1, 2, 3, 4, 5});
    OneKnownTree(false, K_COIN, t, x.Value());
    err := x.Unmarshal([0x22] + Varint(|p|) + p, false);
    assert x.references == old(x.references) + [];
  }

  lemma LengthOfVarint(v: nat)
    requires v < UINT64
    ensures |Varint(v)| <= 10
  {
    hide Varint, Sov;
    GroupsOfVarint(v);
    SovOfUint64(v);
  }

  /** Tag 0x30 sets the flag of a trade: every varint but those of value 0 is true, and
      overlong ones count by their value modulo 2^64. */
  method ReadFlag(x: MsgTrade, raw: Bytes) returns (err: Option<Error>)
    requires IsVarint(raw)
    modifies x
    ensures err == None && x.allowIncomplete == (Groups(raw) % 0x1_0000_0000_0000_0000 != 0)
    ensures x.creator == old(x.creator) && x.denomFrom == old(x.denomFrom) && x.denomTo == old(x.denomTo)
    ensures x.amount == old(x.amount) && x.maxPrice == old(x.maxPrice) && x.unknownFields == old(x.unknownFields)
  {
    hide Decode, Contents, Others, Print, WellFormed, NumberOf, Groups;
    ghost var t := SmallVarint(6, raw);
    forall num: nat | 1 <= num <= 6
      ensures Contents(Print(t), num) == if num == 6 then [raw] else []
    {
      OneTree(t, num, {});
    }
    OneTree(t, 6, {1, 2, 3, 4, 5, 6});
    OneKnownTree(false, MSG_TRADE, t, x.Value());
    err := x.Unmarshal([0x30] + raw, false);
  }

  /** Tag 0x8 sets the used amount of a trade's result, in two's complement. */
  method ReadAmountUsed(x: MsgTradeResponse, raw: Bytes) returns (err: Option<Error>)
    requires IsVarint(raw)
    modifies x
    ensures err == None && x.amountReceived == old(x.amountReceived) && x.unknownFields == old(x.unknownFields)
    ensures (x.amountUsed - Groups(raw)) % 0x1_0000_0000_0000_0000 == 0
  {
    hide Decode, Contents, Others, Print, WellFormed, NumberOf, Groups;
    ghost var t := SmallVarint(1, raw);
    OneTree(t, 1, {1, 2});
    OneTree(t, 2, {});
    OneKnownTree(false, MSG_TRADE_RESPONSE, t, x.Value());
    err := x.Unmarshal([0x8] + raw, false);
    Congruent(Groups(raw), x.amountUsed);
  }

  lemma Congruent(g: nat, r: int)
    requires var u := g % 0x1_0000_0000_0000_0000;
             r == if u < 0x8000_0000_0000_0000 then u else u - 0x1_0000_0000_0000_0000
    ensures (r - g) % 0x1_0000_0000_0000_0000 == 0
  {
  }

  // ------------------------------------------------------------ broken records

  lemma FirstRecordFails(discard: bool, s: Schema, b: Bytes, x: Message, e: Error)
    requires b != [] && Lex(s, b, 0) == Err(e)
    ensures Decode(discard, s, b, 0, x) == Err(e)
  {
    hide Lex;
  }

  lemma SmallTagAt(num: nat, wireType: nat, rest: Bytes)
    requires 1 <= num <= 15 && wireType < 8 && wireType != 4
    ensures TagIs([8 * num + wireType] + rest, 1, num, wireType)
  {
    hide Uint64, IsVarint;
    assert ([8 * num + wireType] + rest)[0..1] == [8 * num + wireType];
    SmallTagIs(num, wireType);
  }

  /** A name that is announced longer than what is there: the input ends too early. */
  method ReadNameCutShort(x: DexDenom, len: nat, p: Bytes) returns (err: Option<Error>)
    requires |p| < len < INT_LIMIT - 11
    modifies x
    ensures err == Some(UnexpectedEOF)
  {
    hide Decode, Lex, Varint, IsVarint, Groups, TagIs;
    ghost var b := [0xa] + (Varint(len) + p);
    var dAtA := [0xa] + Varint(len) + p;
    assert dAtA == b;
    var j := 1 + |Varint(len)|;
    LengthOfVarint(len);
    MinimalIsVarint(len);
    VarintNotEmpty(Varint(len));
    SmallTagAt(1, 2, Varint(len) + p);
    assert b[1..j] == Varint(len);
    PayloadRead(DEX_DENOM, b, 0, 1, j, 1);
    FirstRecordFails(false, DEX_DENOM, b, x.Value(), UnexpectedEOF);
    err := x.Unmarshal(dAtA, false);
  }

  /** A known field met with another wire type, the two in the order they are reported. */
  method ReadWrongWireType(x: DexDenom, num: nat, wireType: nat, rest: Bytes) returns (err: Option<Error>)
    requires 1 <= num <= 3 && wireType < 8 && wireType != 2 && wireType != 4 && |rest| < INT_LIMIT - 1
    modifies x
    ensures err == Some(WrongWireType(wireType, num))
  {
    hide Decode, Lex, TagIs;
    SmallTagAt(num, wireType, rest);
    WrongWireTypeReported(DEX_DENOM, [8 * num + wireType] + rest, 0, 1, num, wireType);
    FirstRecordFails(false, DEX_DENOM, [8 * num + wireType] + rest, x.Value(), WrongWireType(wireType, num));
    err := x.Unmarshal([8 * num + wireType] + rest, false);
  }

  /** Wire types 6 and 7 are no records, whatever the field number. */
  method ReadIllegalWireType(x: DexDenom, num: nat, wireType: nat, rest: Bytes) returns (err: Option<Error>)
    requires 4 <= num <= 15 && 6 <= wireType < 8 && |rest| < INT_LIMIT - 1
    modifies x
    ensures err == Some(IllegalWireType(wireType))
  {
    hide Decode, Lex, TagIs;
    ghost var b := [8 * num + wireType] + rest;
    SmallTagAt(num, wireType, rest);
    IllegalWireTypeStops(b, 1, num, wireType);
    UnknownRead(DEX_DENOM, b, 0, 1, num, wireType);
    FirstRecordFails(false, DEX_DENOM, b, x.Value(), IllegalWireType(wireType));
    err := x.Unmarshal([8 * num + wireType] + rest, false);
  }

  lemma IllegalWireTypeStops(b: Bytes, i: nat, num: nat, wireType: nat)
    requires TagIs(b, i, num, wireType) && 6 <= wireType < 8 && |b| < INT_LIMIT
    ensures Skip(b) == Err(IllegalWireType(wireType))
  {
    hide ReadVarint, IsVarint, Uint64;
    VarintReads(b, 0, i);
  }
}
