/** Objects sent over the wire: the generated methods composed. */
module EndToEnd {
  import WireLaws
  import opened Wire
  import opened Codec
  import opened Sizes
  import opened RoundTrip
  import opened Compatibility
  import opened Evolution
  import opened DenominationsParams
  import opened DenominationsGenesis
  import opened DenominationsQuery
  import opened DenominationsTx
  import opened Dex
  import opened DexTrade
  import opened MoneyMarketLoans

  lemma SchemasAreNarrow()
    ensures Narrow(GENESIS_STATE) && Narrow(PARAMS) && Narrow(MSG_ADD_K_COIN) && Narrow(MSG_ADD_C_ASSET)
    ensures Narrow(LIQUIDITY_NEXT_INDEX) && Narrow(DISCOUNT_LEVEL) && Narrow(MSG_TRADE)
    ensures Narrow(MSG_TRADE_RESPONSE)
  {
    assert Narrow(DEX_DENOM) && Narrow(K_COIN) && Narrow(C_ASSET) && Narrow(COLLATERAL_DENOM);
    assert Narrow(PARAMS);
  }

  /** Parameters that are marshalled and unmarshalled into a new object are the same, in
      every list, element, order and unknown record. */
  method SendParams(x: Params) returns (y: Params)
    requires Valid(PARAMS, x.Value()) && Codec.Size(x.Value()) < INT_LIMIT
    ensures fresh(y) && y.Value() == x.Value()
  {
    hide Decode, Valid, Encode, Narrow, Codec.Size, Params.Marshalled, Params.ReadFrom;
    SchemasAreNarrow();
    ghost var m := x.Value();
    SizeIsEncodedLength(m);
    EncodedDecodes(PARAMS, m);
    var b := x.Marshal([]);
    assert b == Encode(m);
    y := new Params();
    var err := y.Unmarshal(b, false);
  }

  /** The same for the genesis state and the parameters inside it. */
  method SendGenesis(x: GenesisState) returns (y: GenesisState)
    requires Valid(GENESIS_STATE, x.Value()) && Codec.Size(x.Value()) < INT_LIMIT
    ensures fresh(y) && y.Value() == x.Value()
  {
    hide Decode, Valid, Encode, Narrow, Codec.Size, GenesisState.Marshalled, GenesisState.ReadFrom;
    SchemasAreNarrow();
    ghost var m := x.Value();
    SizeIsEncodedLength(m);
    EncodedDecodes(GENESIS_STATE, m);
    var b := x.Marshal([]);
    assert b == Encode(m);
    y := new GenesisState();
    var err := y.Unmarshal(b, false);
  }

  /** Every uint64 index survives. */
  method SendNextIndex(next: uint64) returns (y: LiquidityNextIndex)
    ensures fresh(y) && y.next == next
  {
    hide Decode, Encode, Narrow, LiquidityNextIndex.Marshalled, LiquidityNextIndex.ReadFrom;
    SchemasAreNarrow();
    var x := new LiquidityNextIndex();
    x.next := next;
    ghost var m := x.Value();
    NextIndexFits(next);
    SizeIsEncodedLength(m);
    EncodedDecodes(LIQUIDITY_NEXT_INDEX, m);
    var b := x.Marshal([]);
    assert b == Encode(m);
    y := new LiquidityNextIndex();
    var err := y.Unmarshal(b, false);
    assert y.Value().fields[0] == FUint64(next);
  }

  lemma NextIndexFits(next: uint64)
    ensures Codec.Size(Message([FUint64(next)], [])) < INT_LIMIT
  {
    WireLaws.SovOfUint64(next);
    var fs: seq<Field> := [FUint64(next)];
    assert SizeFields(fs) == SizeFields(fs[..0]) + SizeField(fs[0]);
    assert SizeFields(fs[..0]) == 0;
  }

  /** A message that travels inside the field-less response comes out unchanged. */
  method SendThroughResponse(x: MsgAddKCoin) returns (y: MsgAddKCoin)
    requires Valid(MSG_ADD_K_COIN, x.Value()) && Codec.Size(x.Value()) < INT_LIMIT
    ensures fresh(y) && y.Value() == x.Value()
  {
    hide Decode, Valid, Encode, Narrow, Codec.Size, MsgAddKCoin.Marshalled, MsgAddKCoin.ReadFrom;
    hide MsgUpdateParamsResponse.Marshalled, MsgUpdateParamsResponse.ReadFrom;
    SchemasAreNarrow();
    ghost var m := x.Value();
    SizeIsEncodedLength(m);
    EncodingPassesThrough(MSG_ADD_K_COIN, m);
    var b := x.Marshal([]);
    assert b == Encode(m);
    var carrier := new MsgUpdateParamsResponse();
    var err := carrier.Unmarshal(b, false);
    SizeIsEncodedLength(carrier.Value());
    var c := carrier.Marshal([]);
    assert c == Encode(carrier.Value());
    y := new MsgAddKCoin();
    err := y.Unmarshal(c, false);
  }

  /** The same for a message that passes the field-less request as one of its kind. */
  method SendThroughRequest(x: MsgAddCAsset) returns (y: MsgAddCAsset)
    requires Valid(MSG_ADD_C_ASSET, x.Value()) && Codec.Size(x.Value()) < INT_LIMIT
    ensures fresh(y) && y.Value() == x.Value()
  {
    hide Decode, Valid, Encode, Narrow, Codec.Size, MsgAddCAsset.Marshalled, MsgAddCAsset.ReadFrom;
    hide QueryParamsRequest.Marshalled, QueryParamsRequest.ReadFrom;
    SchemasAreNarrow();
    ghost var m := x.Value();
    SizeIsEncodedLength(m);
    EncodingPassesThrough(MSG_ADD_C_ASSET, m);
    var b := x.Marshal([]);
    assert b == Encode(m);
    var carrier := new QueryParamsRequest();
    var err := carrier.Unmarshal(b, false);
    SizeIsEncodedLength(carrier.Value());
    var c := carrier.Marshal([]);
    assert c == Encode(carrier.Value());
    y := new MsgAddCAsset();
    err := y.Unmarshal(c, false);
  }

  /** A genesis state answers a query for the parameters: the two have the same fields. */
  method AnswerQuery(x: GenesisState) returns (y: QueryParamsResponse)
    requires Valid(GENESIS_STATE, x.Value()) && Codec.Size(x.Value()) < INT_LIMIT
    ensures fresh(y) && y.Value() == x.Value()
  {
    hide Decode, Valid, Encode, Narrow, Codec.Size, GenesisState.Marshalled, GenesisState.ReadFrom;
    hide QueryParamsResponse.Marshalled, QueryParamsResponse.ReadFrom;
    SchemasAreNarrow();
    ghost var m := x.Value();
    SizeIsEncodedLength(m);
    EncodedDecodes(GENESIS_STATE, m);
    var b := x.Marshal([]);
    assert b == Encode(m);
    y := new QueryParamsResponse();
    var err := y.Unmarshal(b, false);
  }

  /** Two levels marshalled into one buffer are read back as one: each field of the second
      replaces the first's unless it is empty, and unknown records join. */
  method SendTogether(x: DiscountLevel, y: DiscountLevel) returns (z: DiscountLevel)
    requires Valid(DISCOUNT_LEVEL, x.Value()) && Valid(DISCOUNT_LEVEL, y.Value())
    requires Codec.Size(x.Value()) + Codec.Size(y.Value()) < INT_LIMIT
    ensures fresh(z) && z.unknownFields == x.unknownFields + y.unknownFields
    ensures z.tradeAmount == if y.tradeAmount == [] then x.tradeAmount else y.tradeAmount
    ensures z.discount == if y.discount == [] then x.discount else y.discount
  {
    hide Decode, Valid, Encode, Narrow, Codec.Size, DiscountLevel.Marshalled, DiscountLevel.ReadFrom;
    SchemasAreNarrow();
    ghost var m, n := x.Value(), y.Value();
    SizeIsEncodedLength(m);
    SizeIsEncodedLength(n);
    EncodingsConcatenate(DISCOUNT_LEVEL, m, n);
    var b := x.Marshal([]);
    b := y.Marshal(b);
    assert b == Encode(m) + Encode(n);
    z := new DiscountLevel();
    var err := z.Unmarshal(b, false);
    assert z.Value() == Merge(m, n);
    assert z.Value().fields[0] == MergeField(m.fields[0], n.fields[0]);
    assert z.Value().fields[1] == MergeField(m.fields[1], n.fields[1]);
  }

  /** A trade order, its flag included, survives. */
  method SendTrade(x: MsgTrade) returns (y: MsgTrade)
    requires Valid(MSG_TRADE, x.Value()) && Codec.Size(x.Value()) < INT_LIMIT
    ensures fresh(y) && y.Value() == x.Value() && y.allowIncomplete == x.allowIncomplete
  {
    hide Decode, Valid, Encode, Narrow, Codec.Size, MsgTrade.Marshalled, MsgTrade.ReadFrom;
    SchemasAreNarrow();
    ghost var m := x.Value();
    SizeIsEncodedLength(m);
    EncodedDecodes(MSG_TRADE, m);
    var b := x.Marshal([]);
    assert b == Encode(m);
    y := new MsgTrade();
    var err := y.Unmarshal(b, false);
    assert y.Value().fields[5] == x.Value().fields[5];
  }

  /** Every pair of int64 amounts survives, negative ones too. */
  method SendTradeResult(used: int64, received: int64) returns (y: MsgTradeResponse)
    ensures fresh(y) && y.amountUsed == used && y.amountReceived == received
  {
    hide Decode, Encode, Narrow, ToInt64, ToUint64, SizeFields, MsgTradeResponse.Marshalled;
    hide MsgTradeResponse.ReadFrom;
    SchemasAreNarrow();
    var x := new MsgTradeResponse();
    x.amountUsed, x.amountReceived := used, received;
    ghost var m := x.Value();
    TradeResultFits(ToUint64(used), ToUint64(received));
    SizeIsEncodedLength(m);
    EncodedDecodes(MSG_TRADE_RESPONSE, m);
    var b := x.Marshal([]);
    assert b == Encode(m);
    y := new MsgTradeResponse();
    var err := y.Unmarshal(b, false);
    assert y.Value().fields[0] == m.fields[0] && y.Value().fields[1] == m.fields[1];
  }

  lemma TradeResultFits(used: uint64, received: uint64)
    ensures Codec.Size(Message([FUint64(used), FUint64(received)], [])) < INT_LIMIT
  {
    WireLaws.SovOfUint64(used);
    WireLaws.SovOfUint64(received);
    var fs: seq<Field> := [FUint64(used), FUint64(received)];
    assert fs[..1][..0] == [];
    assert SizeFields(fs) == SizeFields(fs[..1]) + SizeField(fs[1]);
    assert SizeFields(fs[..1]) == SizeFields(fs[..1][..0]) + SizeField(fs[0]);
  }

  /** A loan entry of a later version `s`, whose new fields take numbers that are a gap
      here or lie beyond the last one, passes this version without loss. */
  method ForwardLoan(b: Bytes, ghost s: Schema, ghost m: Message) returns (out: Bytes)
    requires Older(USER_LOAN, s) && Narrow(s) && |b| < INT_LIMIT
    requires Decode(false, s, b, 0, Empty(s)) == Ok(m)
    ensures Decode(false, s, out, 0, Empty(s)) == Ok(m)
  {
    hide Decode, Encode, Narrow, Codec.Size, UserLoan.Marshalled, UserLoan.ReadFrom;
    OldReaderKeepsMeaning(s, USER_LOAN, b);
    DecodeNoGrowth(false, USER_LOAN, b, 0, Empty(USER_LOAN));
    SizeOfEmpty(USER_LOAN);
    var x := new UserLoan();
    var err := x.Unmarshal(b, false);
    out := x.Marshal([]);
    assert out == Encode(x.Value());
  }

  /** A genesis state of a later version `s`, with new fields at any level, in a list
      element of the parameters for one, passes this version without loss. */
  method ForwardGenesis(b: Bytes, ghost s: Schema, ghost m: Message) returns (out: Bytes)
    requires Older(GENESIS_STATE, s) && Narrow(s) && |b| < INT_LIMIT
    requires Decode(false, s, b, 0, Empty(s)) == Ok(m)
    ensures Decode(false, s, out, 0, Empty(s)) == Ok(m)
  {
    hide Decode, Encode, Narrow, Older, Codec.Size, GenesisState.Marshalled, GenesisState.ReadFrom;
    OldReaderKeepsMeaning(s, GENESIS_STATE, b);
    DecodeNoGrowth(false, GENESIS_STATE, b, 0, Empty(GENESIS_STATE));
    SizeOfEmpty(GENESIS_STATE);
    var x := new GenesisState();
    var err := x.Unmarshal(b, false);
    out := x.Marshal([]);
    assert out == Encode(x.Value());
  }
}
