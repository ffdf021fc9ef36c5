/** Messages of api/kopi/denominations/tx.pulsar.go. */
module DenominationsTx {
  import opened Wire
  import opened Codec
  import opened Fields
  import opened Layout
  import opened Reader
  import opened Writer

  /** tx.pulsar.go:248-363 has no fields. */
  const MSG_UPDATE_PARAMS_RESPONSE: Schema := []

  class MsgUpdateParamsResponse {
    var unknownFields: Bytes

    ghost function Value(): Message
      reads this
    {
      Message([], unknownFields)
    }

    constructor ()
      ensures Value() == Empty(MSG_UPDATE_PARAMS_RESPONSE)
      ensures unknownFields == []
    {
      unknownFields := [];
    }

    method Size() returns (n: nat)
      requires Codec.Size(Value()) < INT_LIMIT
      ensures n == Codec.Size(Value())
    {
      hide SizeFields;
      ghost var x := Value();
      n := 0;
      NothingSized(x.fields);
      n := n + |unknownFields|;
      assert x.fields[..0] == x.fields;
    }

    /** What `marshal` returns: the given buffer, then the fields under their tag bytes. */
    ghost predicate Marshalled(buf: Bytes, out: Bytes)
      reads this
    {
      out == buf + unknownFields
    }

    lemma EncodingIsMarshalled(buf: Bytes)
      ensures Marshalled(buf, buf + Encode(Value()))
    {
      hide EncodeField, EncodeFields, Rec, Recs, RecVarint, Encodings, Varint, Tag;
      var fs := Value().fields;
      GapForm(1);
      assert [] + unknownFields == unknownFields;
    }

    method Marshal(buf: Bytes) returns (out: Bytes)
      requires Codec.Size(Value()) < INT_LIMIT
      ensures out == buf + Encode(Value())
      ensures Marshalled(buf, out)
    {
      hide EncodeFields, Encode, AtField, Codec.Size, Marshalled;
      ghost var fs, full := Value().fields, Encode(Value());
      var size := Size();
      var dAtA, i := Allocate(Value(), size, unknownFields);
      AllWritten(dAtA, i, fs, full);
      out := buf + dAtA[..];
      EncodingIsMarshalled(buf);
    }

    /** The field switch of the loop: one record, from its tag on. */
    method UnmarshalField(dAtA: Bytes, preIndex: nat, from: nat, fieldNum: nat, wireType: nat, discard: bool,
        ghost p: Pass)
      returns (err: Option<Error>, postIndex: nat)
      requires p == Pass(discard, MSG_UPDATE_PARAMS_RESPONSE, dAtA, preIndex, Value())
      requires p.AfterTag(from, fieldNum, wireType)
      requires fieldNum >= 1 && preIndex < from <= |dAtA| < INT_LIMIT
      modifies this
      ensures p.Leads(err, postIndex, Value()) && (err.None? ==> preIndex < postIndex <= |dAtA|)
    {
      hide Decode, Lex, ReadHeader, Pass.AfterTag, Pass.HasRecord, Pass.Outcome, Empty, Reports;
      var iNdEx := from;
      err, postIndex := SkipRecord(dAtA, preIndex, iNdEx, fieldNum, wireType, p);
      if err.None? {
        if !discard {
          unknownFields := unknownFields + dAtA[preIndex..postIndex];
        }
        NextUnknown(p, postIndex, Value());
      }
    }

    /** What a successful `unmarshal` of `b` makes of the variables that were `...0`. */
    ghost predicate ReadFrom(discard: bool, b: Bytes, unknown0: Bytes)
      reads this
    {
      unknownFields == unknown0 + if discard then [] else Others(b, {})
    }

    lemma DecodedIsReadFrom(discard: bool, b: Bytes, x: Message, unknown0: Bytes)
      requires Decoded(discard, MSG_UPDATE_PARAMS_RESPONSE, b, x, Value()) && x.unknown == unknown0
      ensures ReadFrom(discard, b, unknown0)
    {
      hide Decode, Contents, Others, Latest, LatestVarint, LatestInt64, LatestBool, ListAfter, MessageAfter;
      hide Encode, EncodeFields, Codec.Size, SizeFields, Valid, ValidUnknown;
      var y := Value();
      assert Decoded(discard, MSG_UPDATE_PARAMS_RESPONSE, b, x, y);
      hide Decoded;
      OthersRead(discard, MSG_UPDATE_PARAMS_RESPONSE, b, x, y, {});
    }

    method Unmarshal(dAtA: Bytes, discard: bool) returns (err: Option<Error>)
      requires |dAtA| < INT_LIMIT
      modifies this
      ensures Reports(Decode(discard, MSG_UPDATE_PARAMS_RESPONSE, dAtA, 0, old(Value())), err, Value())
      ensures err.None? ==> ReadFrom(discard, dAtA, old(unknownFields))
    {
      hide Decode, Lex, ReadHeader, Pass.AfterTag, Pass.HasRecord, Pass.Outcome, ReadFrom;
      ghost var x := Value();
      ghost var goal := Decode(discard, MSG_UPDATE_PARAMS_RESPONSE, dAtA, 0, Value());
      err := None;
      var iNdEx := 0;
      Start(Pass(discard, MSG_UPDATE_PARAMS_RESPONSE, dAtA, 0, Value()));
      while iNdEx < |dAtA|
        invariant iNdEx <= |dAtA| && err == None
        invariant Pass(discard, MSG_UPDATE_PARAMS_RESPONSE, dAtA, iNdEx, Value()).Outcome() == goal
      {
        var preIndex := iNdEx;
        ghost var p := Pass(discard, MSG_UPDATE_PARAMS_RESPONSE, dAtA, preIndex, Value());
        var fieldNum, wireType;
        err, fieldNum, wireType, iNdEx := ReadTag(dAtA, iNdEx, p);
        if err.Some? { return; }
        err, iNdEx := UnmarshalField(dAtA, preIndex, iNdEx, fieldNum, wireType, discard, p);
        if err.Some? { return; }
      }
      Done(Pass(discard, MSG_UPDATE_PARAMS_RESPONSE, dAtA, iNdEx, Value()));
      DecodedIsReadFrom(discard, dAtA, x, old(unknownFields));
    }
  }

  /** Fields of tx.pulsar.go:1988-2451: authority, denom, references, max_supply,
      max_mint_amount, max_burn_amount, factor, min_liquidity. */
  const MSG_ADD_K_COIN: Schema := [KBytes, KBytes, KRepeated, KBytes, KBytes, KBytes, KBytes, KBytes]

  class MsgAddKCoin {
    var authority: Bytes
    var denom: Bytes
    var references: seq<Bytes>
    var maxSupply: Bytes
    var maxMintAmount: Bytes
    var maxBurnAmount: Bytes
    var factor: Bytes
    var minLiquidity: Bytes
    var unknownFields: Bytes

    ghost function Value(): Message
      reads this
    {
      Message(
        [FBytes(authority), FBytes(denom), FRepeated(references),
         FBytes(maxSupply), FBytes(maxMintAmount), FBytes(maxBurnAmount),
         FBytes(factor), FBytes(minLiquidity)],
        unknownFields)
    }

    constructor ()
      ensures Value() == Empty(MSG_ADD_K_COIN)
      ensures authority == [] && denom == [] && references == [] && maxSupply == [] && maxMintAmount == [] &&
              maxBurnAmount == [] && factor == [] && minLiquidity == [] && unknownFields == []
    {
      authority := [];
      denom := [];
      references := [];
      maxSupply := [];
      maxMintAmount := [];
      maxBurnAmount := [];
      factor := [];
      minLiquidity := [];
      unknownFields := [];
    }

    method Size() returns (n: nat)
      requires Codec.Size(Value()) < INT_LIMIT
      ensures n == Codec.Size(Value())
    {
      hide SizeFields;
      ghost var x := Value();
      n := 0;
      NothingSized(x.fields);
      n := SizeOptional(n, authority, x.fields, 1);
      n := SizeOptional(n, denom, x.fields, 2);
      n := SizeRepeated(n, references, x.fields, 3);
      n := SizeOptional(n, maxSupply, x.fields, 4);
      n := SizeOptional(n, maxMintAmount, x.fields, 5);
      n := SizeOptional(n, maxBurnAmount, x.fields, 6);
      n := SizeOptional(n, factor, x.fields, 7);
      n := SizeOptional(n, minLiquidity, x.fields, 8);
      n := n + |unknownFields|;
      assert x.fields[..8] == x.fields;
    }

    /** What `marshal` returns: the given buffer, then the fields under their tag bytes. */
    ghost predicate Marshalled(buf: Bytes, out: Bytes)
      reads this
    {
      out == buf + (Rec(0xa, authority) + Rec(0x12, denom) + Recs(0x1a, references) + Rec(0x22, maxSupply) +
                   Rec(0x2a, maxMintAmount) + Rec(0x32, maxBurnAmount) + Rec(0x3a, factor) +
                   Rec(0x42, minLiquidity) + unknownFields)
    }

    lemma EncodingIsMarshalled(buf: Bytes)
      ensures Marshalled(buf, buf + Encode(Value()))
    {
      hide EncodeField, EncodeFields, Rec, Recs, RecVarint, Encodings, Varint, Tag;
      var fs := Value().fields;
      FieldStep(fs, 1);
      BytesForm(0xa, 1, authority);
      FieldStep(fs, 2);
      BytesForm(0x12, 2, denom);
      FieldStep(fs, 3);
      StringsForm(0x1a, 3, references);
      FieldStep(fs, 4);
      BytesForm(0x22, 4, maxSupply);
      FieldStep(fs, 5);
      BytesForm(0x2a, 5, maxMintAmount);
      FieldStep(fs, 6);
      BytesForm(0x32, 6, maxBurnAmount);
      FieldStep(fs, 7);
      BytesForm(0x3a, 7, factor);
      FieldStep(fs, 8);
      BytesForm(0x42, 8, minLiquidity);
      assert fs[..8] == fs;
    }

    method Marshal(buf: Bytes) returns (out: Bytes)
      requires Codec.Size(Value()) < INT_LIMIT
      ensures out == buf + Encode(Value())
      ensures Marshalled(buf, out)
    {
      hide EncodeFields, Encode, AtField, Codec.Size, Marshalled;
      ghost var fs, full := Value().fields, Encode(Value());
      var size := Size();
      var dAtA, i := Allocate(Value(), size, unknownFields);
      i := PutBytes(dAtA, i, 0x42, minLiquidity, fs, 8, full);
      i := PutBytes(dAtA, i, 0x3a, factor, fs, 7, full);
      i := PutBytes(dAtA, i, 0x32, maxBurnAmount, fs, 6, full);
      i := PutBytes(dAtA, i, 0x2a, maxMintAmount, fs, 5, full);
      i := PutBytes(dAtA, i, 0x22, maxSupply, fs, 4, full);
      i := PutStrings(dAtA, i, 0x1a, references, fs, 3, full);
      i := PutBytes(dAtA, i, 0x12, denom, fs, 2, full);
      i := PutBytes(dAtA, i, 0xa, authority, fs, 1, full);
      AllWritten(dAtA, i, fs, full);
      out := buf + dAtA[..];
      EncodingIsMarshalled(buf);
    }

    /** The field switch of the loop: one record, from its tag on. */
    method UnmarshalField(dAtA: Bytes, preIndex: nat, from: nat, fieldNum: nat, wireType: nat, discard: bool,
        ghost p: Pass)
      returns (err: Option<Error>, postIndex: nat)
      requires p == Pass(discard, MSG_ADD_K_COIN, dAtA, preIndex, Value())
      requires p.AfterTag(from, fieldNum, wireType)
      requires fieldNum >= 1 && preIndex < from <= |dAtA| < INT_LIMIT
      modifies this
      ensures p.Leads(err, postIndex, Value()) && (err.None? ==> preIndex < postIndex <= |dAtA|)
    {
      hide Decode, Lex, ReadHeader, Pass.AfterTag, Pass.HasRecord, Pass.Outcome, Empty, Reports;
      var iNdEx := from;
      match fieldNum {
      case 1 =>
        err, iNdEx, postIndex := ReadPayload(dAtA, iNdEx, 1, wireType, p);
        if err.None? {
          authority := dAtA[iNdEx..postIndex];
          NextBytes(p, iNdEx, postIndex, 0, Value());
        }
      case 2 =>
        err, iNdEx, postIndex := ReadPayload(dAtA, iNdEx, 2, wireType, p);
        if err.None? {
          denom := dAtA[iNdEx..postIndex];
          NextBytes(p, iNdEx, postIndex, 1, Value());
        }
      case 3 =>
        err, iNdEx, postIndex := ReadPayload(dAtA, iNdEx, 3, wireType, p);
        if err.None? {
          references := references + [dAtA[iNdEx..postIndex]];
          NextString(p, iNdEx, postIndex, 2, Value());
        }
      case 4 =>
        err, iNdEx, postIndex := ReadPayload(dAtA, iNdEx, 4, wireType, p);
        if err.None? {
          maxSupply := dAtA[iNdEx..postIndex];
          NextBytes(p, iNdEx, postIndex, 3, Value());
        }
      case _ =>
        err, postIndex := UnmarshalUpperField(dAtA, preIndex, iNdEx, fieldNum, wireType, discard, p);
      }
    }

    /** The field switch from field 5 on. */
    method UnmarshalUpperField(dAtA: Bytes, preIndex: nat, from: nat, fieldNum: nat, wireType: nat, discard: bool,
        ghost p: Pass)
      returns (err: Option<Error>, postIndex: nat)
      requires p == Pass(discard, MSG_ADD_K_COIN, dAtA, preIndex, Value())
      requires p.AfterTag(from, fieldNum, wireType)
      requires fieldNum >= 5 && preIndex < from <= |dAtA| < INT_LIMIT
      modifies this
      ensures p.Leads(err, postIndex, Value()) && (err.None? ==> preIndex < postIndex <= |dAtA|)
    {
      hide Decode, Lex, ReadHeader, Pass.AfterTag, Pass.HasRecord, Pass.Outcome, Empty, Reports;
      var iNdEx := from;
      match fieldNum {
      case 5 =>
        err, iNdEx, postIndex := ReadPayload(dAtA, iNdEx, 5, wireType, p);
        if err.None? {
          maxMintAmount := dAtA[iNdEx..postIndex];
          NextBytes(p, iNdEx, postIndex, 4, Value());
        }
      case 6 =>
        err, iNdEx, postIndex := ReadPayload(dAtA, iNdEx, 6, wireType, p);
        if err.None? {
          maxBurnAmount := dAtA[iNdEx..postIndex];
          NextBytes(p, iNdEx, postIndex, 5, Value());
        }
      case 7 =>
        err, iNdEx, postIndex := ReadPayload(dAtA, iNdEx, 7, wireType, p);
        if err.None? {
          factor := dAtA[iNdEx..postIndex];
          NextBytes(p, iNdEx, postIndex, 6, Value());
        }
      case 8 =>
        err, iNdEx, postIndex := ReadPayload(dAtA, iNdEx, 8, wireType, p);
        if err.None? {
          minLiquidity := dAtA[iNdEx..postIndex];
          NextBytes(p, iNdEx, postIndex, 7, Value());
        }
      case _ =>
        err, postIndex := SkipRecord(dAtA, preIndex, iNdEx, fieldNum, wireType, p);
        if err.None? {
          if !discard {
            unknownFields := unknownFields + dAtA[preIndex..postIndex];
          }
          NextUnknown(p, postIndex, Value());
        }
      }
    }

    /** What a successful `unmarshal` of `b` makes of the variables that were `...0`. */
    ghost predicate ReadFrom(discard: bool, b: Bytes, authority0: Bytes, denom0: Bytes, references0: seq<Bytes>,
        maxSupply0: Bytes, maxMintAmount0: Bytes, maxBurnAmount0: Bytes, factor0: Bytes, minLiquidity0: Bytes,
        unknown0: Bytes)
      reads this
    {
      && authority == Latest(Contents(b, 1), authority0)
      && denom == Latest(Contents(b, 2), denom0)
      && references == references0 + Contents(b, 3)
      && maxSupply == Latest(Contents(b, 4), maxSupply0)
      && maxMintAmount == Latest(Contents(b, 5), maxMintAmount0)
      && maxBurnAmount == Latest(Contents(b, 6), maxBurnAmount0)
      && factor == Latest(Contents(b, 7), factor0)
      && minLiquidity == Latest(Contents(b, 8), minLiquidity0)
      && unknownFields == unknown0 + if discard then [] else Others(b, {1, 2, 3, 4, 5, 6, 7, 8})
    }

    lemma DecodedIsReadFrom(discard: bool, b: Bytes, x: Message, authority0: Bytes, denom0: Bytes,
        references0: seq<Bytes>, maxSupply0: Bytes, maxMintAmount0: Bytes, maxBurnAmount0: Bytes,
        factor0: Bytes, minLiquidity0: Bytes, unknown0: Bytes)
      requires Decoded(discard, MSG_ADD_K_COIN, b, x, Value()) && x.unknown == unknown0
      requires x.fields == [FBytes(authority0), FBytes(denom0), FRepeated(references0), FBytes(maxSupply0),
                            FBytes(maxMintAmount0), FBytes(maxBurnAmount0), FBytes(factor0),
                            FBytes(minLiquidity0)]
      ensures ReadFrom(discard, b, authority0, denom0, references0, maxSupply0, maxMintAmount0, maxBurnAmount0,
          factor0, minLiquidity0, unknown0)
    {
      hide Decode, Contents, Others, Latest, LatestVarint, LatestInt64, LatestBool, ListAfter, MessageAfter;
      hide Encode, EncodeFields, Codec.Size, SizeFields, Valid, ValidUnknown;
      var y := Value();
      assert Decoded(discard, MSG_ADD_K_COIN, b, x, y);
      hide Decoded;
      BytesRead(discard, MSG_ADD_K_COIN, b, x, y, 0, authority0, authority);
      BytesRead(discard, MSG_ADD_K_COIN, b, x, y, 1, denom0, denom);
      StringsRead(discard, MSG_ADD_K_COIN, b, x, y, 2, references0, references);
      BytesRead(discard, MSG_ADD_K_COIN, b, x, y, 3, maxSupply0, maxSupply);
      BytesRead(discard, MSG_ADD_K_COIN, b, x, y, 4, maxMintAmount0, maxMintAmount);
      BytesRead(discard, MSG_ADD_K_COIN, b, x, y, 5, maxBurnAmount0, maxBurnAmount);
      BytesRead(discard, MSG_ADD_K_COIN, b, x, y, 6, factor0, factor);
      BytesRead(discard, MSG_ADD_K_COIN, b, x, y, 7, minLiquidity0, minLiquidity);
      OthersRead(discard, MSG_ADD_K_COIN, b, x, y, {1, 2, 3, 4, 5, 6, 7, 8});
    }

    method Unmarshal(dAtA: Bytes, discard: bool) returns (err: Option<Error>)
      requires |dAtA| < INT_LIMIT
      modifies this
      ensures Reports(Decode(discard, MSG_ADD_K_COIN, dAtA, 0, old(Value())), err, Value())
      ensures err.None? ==> ReadFrom(discard, dAtA, old(authority), old(denom), old(references), old(maxSupply),
          old(maxMintAmount), old(maxBurnAmount), old(factor), old(minLiquidity), old(unknownFields))
    {
      hide Decode, Lex, ReadHeader, Pass.AfterTag, Pass.HasRecord, Pass.Outcome, ReadFrom;
      ghost var x := Value();
      ghost var goal := Decode(discard, MSG_ADD_K_COIN, dAtA, 0, Value());
      err := None;
      var iNdEx := 0;
      Start(Pass(discard, MSG_ADD_K_COIN, dAtA, 0, Value()));
      while iNdEx < |dAtA|
        invariant iNdEx <= |dAtA| && err == None
        invariant Pass(discard, MSG_ADD_K_COIN, dAtA, iNdEx, Value()).Outcome() == goal
      {
        var preIndex := iNdEx;
        ghost var p := Pass(discard, MSG_ADD_K_COIN, dAtA, preIndex, Value());
        var fieldNum, wireType;
        err, fieldNum, wireType, iNdEx := ReadTag(dAtA, iNdEx, p);
        if err.Some? { return; }
        err, iNdEx := UnmarshalField(dAtA, preIndex, iNdEx, fieldNum, wireType, discard, p);
        if err.Some? { return; }
      }
      Done(Pass(discard, MSG_ADD_K_COIN, dAtA, iNdEx, Value()));
      DecodedIsReadFrom(discard, dAtA, x, old(authority), old(denom), old(references), old(maxSupply),
          old(maxMintAmount), old(maxBurnAmount), old(factor), old(minLiquidity), old(unknownFields));
    }
  }

  /** Fields of tx.pulsar.go:7407-7823: authority, name, base_denom, dex_fee_share, factor,
      min_liquidity, borrow_limit. */
  const MSG_ADD_C_ASSET: Schema := [KBytes, KBytes, KBytes, KBytes, KBytes, KBytes, KBytes]

  class MsgAddCAsset {
    var authority: Bytes
    var name: Bytes
    var baseDenom: Bytes
    var dexFeeShare: Bytes
    var factor: Bytes
    var minLiquidity: Bytes
    var borrowLimit: Bytes
    var unknownFields: Bytes

    ghost function Value(): Message
      reads this
    {
      Message(
        [FBytes(authority), FBytes(name), FBytes(baseDenom),
         FBytes(dexFeeShare), FBytes(factor), FBytes(minLiquidity),
         FBytes(borrowLimit)],
        unknownFields)
    }

    constructor ()
      ensures Value() == Empty(MSG_ADD_C_ASSET)
      ensures authority == [] && name == [] && baseDenom == [] && dexFeeShare == [] && factor == [] &&
              minLiquidity == [] && borrowLimit == [] && unknownFields == []
    {
      authority := [];
      name := [];
      baseDenom := [];
      dexFeeShare := [];
      factor := [];
      minLiquidity := [];
      borrowLimit := [];
      unknownFields := [];
    }

    method Size() returns (n: nat)
      requires Codec.Size(Value()) < INT_LIMIT
      ensures n == Codec.Size(Value())
    {
      hide SizeFields;
      ghost var x := Value();
      n := 0;
      NothingSized(x.fields);
      n := SizeOptional(n, authority, x.fields, 1);
      n := SizeOptional(n, name, x.fields, 2);
      n := SizeOptional(n, baseDenom, x.fields, 3);
      n := SizeOptional(n, dexFeeShare, x.fields, 4);
      n := SizeOptional(n, factor, x.fields, 5);
      n := SizeOptional(n, minLiquidity, x.fields, 6);
      n := SizeOptional(n, borrowLimit, x.fields, 7);
      n := n + |unknownFields|;
      assert x.fields[..7] == x.fields;
    }

    /** What `marshal` returns: the given buffer, then the fields under their tag bytes. */
    ghost predicate Marshalled(buf: Bytes, out: Bytes)
      reads this
    {
      out == buf + (Rec(0xa, authority) + Rec(0x12, name) + Rec(0x1a, baseDenom) + Rec(0x22, dexFeeShare) +
                   Rec(0x2a, factor) + Rec(0x32, minLiquidity) + Rec(0x3a, borrowLimit) + unknownFields)
    }

    lemma EncodingIsMarshalled(buf: Bytes)
      ensures Marshalled(buf, buf + Encode(Value()))
    {
      hide EncodeField, EncodeFields, Rec, Recs, RecVarint, Encodings, Varint, Tag;
      var fs := Value().fields;
      FieldStep(fs, 1);
      BytesForm(0xa, 1, authority);
      FieldStep(fs, 2);
      BytesForm(0x12, 2, name);
      FieldStep(fs, 3);
      BytesForm(0x1a, 3, baseDenom);
      FieldStep(fs, 4);
      BytesForm(0x22, 4, dexFeeShare);
      FieldStep(fs, 5);
      BytesForm(0x2a, 5, factor);
      FieldStep(fs, 6);
      BytesForm(0x32, 6, minLiquidity);
      FieldStep(fs, 7);
      BytesForm(0x3a, 7, borrowLimit);
      assert fs[..7] == fs;
    }

    method Marshal(buf: Bytes) returns (out: Bytes)
      requires Codec.Size(Value()) < INT_LIMIT
      ensures out == buf + Encode(Value())
      ensures Marshalled(buf, out)
    {
      hide EncodeFields, Encode, AtField, Codec.Size, Marshalled;
      ghost var fs, full := Value().fields, Encode(Value());
      var size := Size();
      var dAtA, i := Allocate(Value(), size, unknownFields);
      i := PutBytes(dAtA, i, 0x3a, borrowLimit, fs, 7, full);
      i := PutBytes(dAtA, i, 0x32, minLiquidity, fs, 6, full);
      i := PutBytes(dAtA, i, 0x2a, factor, fs, 5, full);
      i := PutBytes(dAtA, i, 0x22, dexFeeShare, fs, 4, full);
      i := PutBytes(dAtA, i, 0x1a, baseDenom, fs, 3, full);
      i := PutBytes(dAtA, i, 0x12, name, fs, 2, full);
      i := PutBytes(dAtA, i, 0xa, authority, fs, 1, full);
      AllWritten(dAtA, i, fs, full);
      out := buf + dAtA[..];
      EncodingIsMarshalled(buf);
    }

    /** The field switch of the loop: one record, from its tag on. */
    method UnmarshalField(dAtA: Bytes, preIndex: nat, from: nat, fieldNum: nat, wireType: nat, discard: bool,
        ghost p: Pass)
      returns (err: Option<Error>, postIndex: nat)
      requires p == Pass(discard, MSG_ADD_C_ASSET, dAtA, preIndex, Value())
      requires p.AfterTag(from, fieldNum, wireType)
      requires fieldNum >= 1 && preIndex < from <= |dAtA| < INT_LIMIT
      modifies this
      ensures p.Leads(err, postIndex, Value()) && (err.None? ==> preIndex < postIndex <= |dAtA|)
    {
      hide Decode, Lex, ReadHeader, Pass.AfterTag, Pass.HasRecord, Pass.Outcome, Empty, Reports;
      var iNdEx := from;
      match fieldNum {
      case 1 =>
        err, iNdEx, postIndex := ReadPayload(dAtA, iNdEx, 1, wireType, p);
        if err.None? {
          authority := dAtA[iNdEx..postIndex];
          NextBytes(p, iNdEx, postIndex, 0, Value());
        }
      case 2 =>
        err, iNdEx, postIndex := ReadPayload(dAtA, iNdEx, 2, wireType, p);
        if err.None? {
          name := dAtA[iNdEx..postIndex];
          NextBytes(p, iNdEx, postIndex, 1, Value());
        }
      case 3 =>
        err, iNdEx, postIndex := ReadPayload(dAtA, iNdEx, 3, wireType, p);
        if err.None? {
          baseDenom := dAtA[iNdEx..postIndex];
          NextBytes(p, iNdEx, postIndex, 2, Value());
        }
      case 4 =>
        err, iNdEx, postIndex := ReadPayload(dAtA, iNdEx, 4, wireType, p);
        if err.None? {
          dexFeeShare := dAtA[iNdEx..postIndex];
          NextBytes(p, iNdEx, postIndex, 3, Value());
        }
      case _ =>
        err, postIndex := UnmarshalUpperField(dAtA, preIndex, iNdEx, fieldNum, wireType, discard, p);
      }
    }

    /** The field switch from field 5 on. */
    method UnmarshalUpperField(dAtA: Bytes, preIndex: nat, from: nat, fieldNum: nat, wireType: nat, discard: bool,
        ghost p: Pass)
      returns (err: Option<Error>, postIndex: nat)
      requires p == Pass(discard, MSG_ADD_C_ASSET, dAtA, preIndex, Value())
      requires p.AfterTag(from, fieldNum, wireType)
      requires fieldNum >= 5 && preIndex < from <= |dAtA| < INT_LIMIT
      modifies this
      ensures p.Leads(err, postIndex, Value()) && (err.None? ==> preIndex < postIndex <= |dAtA|)
    {
      hide Decode, Lex, ReadHeader, Pass.AfterTag, Pass.HasRecord, Pass.Outcome, Empty, Reports;
      var iNdEx := from;
      match fieldNum {
      case 5 =>
        err, iNdEx, postIndex := ReadPayload(dAtA, iNdEx, 5, wireType, p);
        if err.None? {
          factor := dAtA[iNdEx..postIndex];
          NextBytes(p, iNdEx, postIndex, 4, Value());
        }
      case 6 =>
        err, iNdEx, postIndex := ReadPayload(dAtA, iNdEx, 6, wireType, p);
        if err.None? {
          minLiquidity := dAtA[iNdEx..postIndex];
          NextBytes(p, iNdEx, postIndex, 5, Value());
        }
      case 7 =>
        err, iNdEx, postIndex := ReadPayload(dAtA, iNdEx, 7, wireType, p);
        if err.None? {
          borrowLimit := dAtA[iNdEx..postIndex];
          NextBytes(p, iNdEx, postIndex, 6, Value());
        }
      case _ =>
        err, postIndex := SkipRecord(dAtA, preIndex, iNdEx, fieldNum, wireType, p);
        if err.None? {
          if !discard {
            unknownFields := unknownFields + dAtA[preIndex..postIndex];
          }
          NextUnknown(p, postIndex, Value());
        }
      }
    }

    /** What a successful `unmarshal` of `b` makes of the variables that were `...0`. */
    ghost predicate ReadFrom(discard: bool, b: Bytes, authority0: Bytes, name0: Bytes, baseDenom0: Bytes,
        dexFeeShare0: Bytes, factor0: Bytes, minLiquidity0: Bytes, borrowLimit0: Bytes, unknown0: Bytes)
      reads this
    {
      && authority == Latest(Contents(b, 1), authority0)
      && name == Latest(Contents(b, 2), name0)
      && baseDenom == Latest(Contents(b, 3), baseDenom0)
      && dexFeeShare == Latest(Contents(b, 4), dexFeeShare0)
      && factor == Latest(Contents(b, 5), factor0)
      && minLiquidity == Latest(Contents(b, 6), minLiquidity0)
      && borrowLimit == Latest(Contents(b, 7), borrowLimit0)
      && unknownFields == unknown0 + if discard then [] else Others(b, {1, 2, 3, 4, 5, 6, 7})
    }

    lemma DecodedIsReadFrom(discard: bool, b: Bytes, x: Message, authority0: Bytes, name0: Bytes,
        baseDenom0: Bytes, dexFeeShare0: Bytes, factor0: Bytes, minLiquidity0: Bytes, borrowLimit0: Bytes,
        unknown0: Bytes)
      requires Decoded(discard, MSG_ADD_C_ASSET, b, x, Value()) && x.unknown == unknown0
      requires x.fields == [FBytes(authority0), FBytes(name0), FBytes(baseDenom0), FBytes(dexFeeShare0),
                            FBytes(factor0), FBytes(minLiquidity0), FBytes(borrowLimit0)]
      ensures ReadFrom(discard, b, authority0, name0, baseDenom0, dexFeeShare0, factor0, minLiquidity0,
          borrowLimit0, unknown0)
    {
      hide Decode, Contents, Others, Latest, LatestVarint, LatestInt64, LatestBool, ListAfter, MessageAfter;
      hide Encode, EncodeFields, Codec.Size, SizeFields, Valid, ValidUnknown;
      var y := Value();
      assert Decoded(discard, MSG_ADD_C_ASSET, b, x, y);
      hide Decoded;
      BytesRead(discard, MSG_ADD_C_ASSET, b, x, y, 0, authority0, authority);
      BytesRead(discard, MSG_ADD_C_ASSET, b, x, y, 1, name0, name);
      BytesRead(discard, MSG_ADD_C_ASSET, b, x, y, 2, baseDenom0, baseDenom);
      BytesRead(discard, MSG_ADD_C_ASSET, b, x, y, 3, dexFeeShare0, dexFeeShare);
      BytesRead(discard, MSG_ADD_C_ASSET, b, x, y, 4, factor0, factor);
      BytesRead(discard, MSG_ADD_C_ASSET, b, x, y, 5, minLiquidity0, minLiquidity);
      BytesRead(discard, MSG_ADD_C_ASSET, b, x, y, 6, borrowLimit0, borrowLimit);
      OthersRead(discard, MSG_ADD_C_ASSET, b, x, y, {1, 2, 3, 4, 5, 6, 7});
    }

    method Unmarshal(dAtA: Bytes, discard: bool) returns (err: Option<Error>)
      requires |dAtA| < INT_LIMIT
      modifies this
      ensures Reports(Decode(discard, MSG_ADD_C_ASSET, dAtA, 0, old(Value())), err, Value())
      ensures err.None? ==> ReadFrom(discard, dAtA, old(authority), old(name), old(baseDenom), old(dexFeeShare),
          old(factor), old(minLiquidity), old(borrowLimit), old(unknownFields))
    {
      hide Decode, Lex, ReadHeader, Pass.AfterTag, Pass.HasRecord, Pass.Outcome, ReadFrom;
      ghost var x := Value();
      ghost var goal := Decode(discard, MSG_ADD_C_ASSET, dAtA, 0, Value());
      err := None;
      var iNdEx := 0;
      Start(Pass(discard, MSG_ADD_C_ASSET, dAtA, 0, Value()));
      while iNdEx < |dAtA|
        invariant iNdEx <= |dAtA| && err == None
        invariant Pass(discard, MSG_ADD_C_ASSET, dAtA, iNdEx, Value()).Outcome() == goal
      {
        var preIndex := iNdEx;
        ghost var p := Pass(discard, MSG_ADD_C_ASSET, dAtA, preIndex, Value());
        var fieldNum, wireType;
        err, fieldNum, wireType, iNdEx := ReadTag(dAtA, iNdEx, p);
        if err.Some? { return; }
        err, iNdEx := UnmarshalField(dAtA, preIndex, iNdEx, fieldNum, wireType, discard, p);
        if err.Some? { return; }
      }
      Done(Pass(discard, MSG_ADD_C_ASSET, dAtA, iNdEx, Value()));
      DecodedIsReadFrom(discard, dAtA, x, old(authority), old(name), old(baseDenom), old(dexFeeShare),
          old(factor), old(minLiquidity), old(borrowLimit), old(unknownFields));
    }
  }
}
