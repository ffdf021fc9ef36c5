/** The trade messages of api/kopi/dex/tx.pulsar.go. */
module DexTrade {
  import opened Wire
  import opened Codec
  import opened Fields
  import opened Layout
  import opened Reader
  import opened Writer

  type int64 = v: int | -0x8000_0000_0000_0000 <= v < INT_LIMIT

  /** Fields of tx.pulsar.go:6341-6703: creator, denom_from, denom_to, amount, max_price,
      allow_incomplete. */
  const MSG_TRADE: Schema := [KBytes, KBytes, KBytes, KBytes, KBytes, KBool]

  class MsgTrade {
    var creator: Bytes
    var denomFrom: Bytes
    var denomTo: Bytes
    var amount: Bytes
    var maxPrice: Bytes
    var allowIncomplete: bool
    var unknownFields: Bytes

    ghost function Value(): Message
      reads this
    {
      Message(
        [FBytes(creator), FBytes(denomFrom), FBytes(denomTo),
         FBytes(amount), FBytes(maxPrice), FUint64(if allowIncomplete then 1 else 0)],
        unknownFields)
    }

    constructor ()
      ensures Value() == Empty(MSG_TRADE)
      ensures creator == [] && denomFrom == [] && denomTo == [] && amount == [] && maxPrice == [] &&
              !allowIncomplete && unknownFields == []
    {
      creator := [];
      denomFrom := [];
      denomTo := [];
      amount := [];
      maxPrice := [];
      allowIncomplete := false;
      unknownFields := [];
    }

    method Size() returns (n: nat)
      requires Codec.Size(Value()) < INT_LIMIT
      ensures n == Codec.Size(Value())
    {
      hide SizeFields;
      ghost var x := Value();
      n := 0;
      NothingSized(x.fields);
      n := SizeOptional(n, creator, x.fields, 1);
      n := SizeOptional(n, denomFrom, x.fields, 2);
      n := SizeOptional(n, denomTo, x.fields, 3);
      n := SizeOptional(n, amount, x.fields, 4);
      n := SizeOptional(n, maxPrice, x.fields, 5);
      if allowIncomplete {
        n := n + 2;
      }
      SizeFieldsStep(x.fields, 6);
      n := n + |unknownFields|;
      assert x.fields[..6] == x.fields;
    }

    /** What `marshal` returns: the given buffer, then the fields under their tag bytes. */
    ghost predicate Marshalled(buf: Bytes, out: Bytes)
      reads this
    {
      out == buf + (Rec(0xa, creator) + Rec(0x12, denomFrom) + Rec(0x1a, denomTo) + Rec(0x22, amount) +
                   Rec(0x2a, maxPrice) + (if allowIncomplete then [0x30, 1] else []) + unknownFields)
    }

    lemma EncodingIsMarshalled(buf: Bytes)
      ensures Marshalled(buf, buf + Encode(Value()))
    {
      hide EncodeField, EncodeFields, Rec, Recs, RecVarint, Encodings, Varint, Tag;
      var fs := Value().fields;
      FieldStep(fs, 1);
      BytesForm(0xa, 1, creator);
      FieldStep(fs, 2);
      BytesForm(0x12, 2, denomFrom);
      FieldStep(fs, 3);
      BytesForm(0x1a, 3, denomTo);
      FieldStep(fs, 4);
      BytesForm(0x22, 4, amount);
      FieldStep(fs, 5);
      BytesForm(0x2a, 5, maxPrice);
      FieldStep(fs, 6);
      BoolForm(0x30, 6, allowIncomplete);
      assert fs[..6] == fs;
    }

    method Marshal(buf: Bytes) returns (out: Bytes)
      requires Codec.Size(Value()) < INT_LIMIT
      ensures out == buf + Encode(Value())
      ensures Marshalled(buf, out)
    {
      hide EncodeFields, Encode, AtField, Codec.Size, Marshalled;
      ghost var fs, full := Value().fields, Encode(Value());
      var size := Size();
      var dAtA, i := Allocate(Value(), size, unknownFields);
      i := PutBool(dAtA, i, 0x30, allowIncomplete, fs, 6, full);
      i := PutBytes(dAtA, i, 0x2a, maxPrice, fs, 5, full);
      i := PutBytes(dAtA, i, 0x22, amount, fs, 4, full);
      i := PutBytes(dAtA, i, 0x1a, denomTo, fs, 3, full);
      i := PutBytes(dAtA, i, 0x12, denomFrom, fs, 2, full);
      i := PutBytes(dAtA, i, 0xa, creator, fs, 1, full);
      AllWritten(dAtA, i, fs, full);
      out := buf + dAtA[..];
      EncodingIsMarshalled(buf);
    }

    /** The field switch of the loop: one record, from its tag on. */
    method UnmarshalField(dAtA: Bytes, preIndex: nat, from: nat, fieldNum: nat, wireType: nat, discard: bool,
        ghost p: Pass)
      returns (err: Option<Error>, postIndex: nat)
      requires p == Pass(discard, MSG_TRADE, dAtA, preIndex, Value())
      requires p.AfterTag(from, fieldNum, wireType)
      requires fieldNum >= 1 && preIndex < from <= |dAtA| < INT_LIMIT
      modifies this
      ensures p.Leads(err, postIndex, Value()) && (err.None? ==> preIndex < postIndex <= |dAtA|)
    {
      hide Decode, Lex, ReadHeader, Pass.AfterTag, Pass.HasRecord, Pass.Outcome, Empty, Reports;
      var iNdEx := from;
      match fieldNum {
      case 1 =>
        err, iNdEx, postIndex := ReadPayload(dAtA, iNdEx, 1, wireType, p);
        if err.None? {
          creator := dAtA[iNdEx..postIndex];
          NextBytes(p, iNdEx, postIndex, 0, Value());
        }
      case 2 =>
        err, iNdEx, postIndex := ReadPayload(dAtA, iNdEx, 2, wireType, p);
        if err.None? {
          denomFrom := dAtA[iNdEx..postIndex];
          NextBytes(p, iNdEx, postIndex, 1, Value());
        }
      case 3 =>
        err, iNdEx, postIndex := ReadPayload(dAtA, iNdEx, 3, wireType, p);
        if err.None? {
          denomTo := dAtA[iNdEx..postIndex];
          NextBytes(p, iNdEx, postIndex, 2, Value());
        }
      case 4 =>
        err, iNdEx, postIndex := ReadPayload(dAtA, iNdEx, 4, wireType, p);
        if err.None? {
          amount := dAtA[iNdEx..postIndex];
          NextBytes(p, iNdEx, postIndex, 3, Value());
        }
      case 5 =>
        err, iNdEx, postIndex := ReadPayload(dAtA, iNdEx, 5, wireType, p);
        if err.None? {
          maxPrice := dAtA[iNdEx..postIndex];
          NextBytes(p, iNdEx, postIndex, 4, Value());
        }
      case 6 =>
        var value;
        err, value, postIndex := ReadScalar(dAtA, iNdEx, 6, wireType, p);
        if err.None? {
          allowIncomplete := value != 0;
          NextScalar(p, value, postIndex, 5, Value());
        }
      case _ =>
        err, postIndex := SkipRecord(dAtA, preIndex, iNdEx, fieldNum, wireType, p);
        if err.None? {
          if !discard {
            unknownFields := unknownFields + dAtA[preIndex..postIndex];
          }
          NextUnknown(p, postIndex, Value());
        }
      }
    }

    /** What a successful `unmarshal` of `b` makes of the variables that were `...0`. */
    ghost predicate ReadFrom(discard: bool, b: Bytes, creator0: Bytes, denomFrom0: Bytes, denomTo0: Bytes,
        amount0: Bytes, maxPrice0: Bytes, allowIncomplete0: bool, unknown0: Bytes)
      reads this
    {
      && creator == Latest(Contents(b, 1), creator0)
      && denomFrom == Latest(Contents(b, 2), denomFrom0)
      && denomTo == Latest(Contents(b, 3), denomTo0)
      && amount == Latest(Contents(b, 4), amount0)
      && maxPrice == Latest(Contents(b, 5), maxPrice0)
      && allowIncomplete == LatestBool(Contents(b, 6), allowIncomplete0)
      && unknownFields == unknown0 + if discard then [] else Others(b, {1, 2, 3, 4, 5, 6})
    }

    lemma DecodedIsReadFrom(discard: bool, b: Bytes, x: Message, creator0: Bytes, denomFrom0: Bytes,
        denomTo0: Bytes, amount0: Bytes, maxPrice0: Bytes, allowIncomplete0: bool, unknown0: Bytes)
      requires Decoded(discard, MSG_TRADE, b, x, Value()) && x.unknown == unknown0
      requires x.fields == [FBytes(creator0), FBytes(denomFrom0), FBytes(denomTo0), FBytes(amount0),
                            FBytes(maxPrice0), FUint64(if allowIncomplete0 then 1 else 0)]
      ensures ReadFrom(discard, b, creator0, denomFrom0, denomTo0, amount0, maxPrice0, allowIncomplete0,
          unknown0)
    {
      hide Decode, Contents, Others, Latest, LatestVarint, LatestInt64, LatestBool, ListAfter, MessageAfter;
      hide Encode, EncodeFields, Codec.Size, SizeFields, Valid, ValidUnknown;
      var y := Value();
      assert Decoded(discard, MSG_TRADE, b, x, y);
      hide Decoded;
      BytesRead(discard, MSG_TRADE, b, x, y, 0, creator0, creator);
      BytesRead(discard, MSG_TRADE, b, x, y, 1, denomFrom0, denomFrom);
      BytesRead(discard, MSG_TRADE, b, x, y, 2, denomTo0, denomTo);
      BytesRead(discard, MSG_TRADE, b, x, y, 3, amount0, amount);
      BytesRead(discard, MSG_TRADE, b, x, y, 4, maxPrice0, maxPrice);
      BoolRead(discard, MSG_TRADE, b, x, y, 5, allowIncomplete0, allowIncomplete);
      OthersRead(discard, MSG_TRADE, b, x, y, {1, 2, 3, 4, 5, 6});
    }

    method Unmarshal(dAtA: Bytes, discard: bool) returns (err: Option<Error>)
      requires |dAtA| < INT_LIMIT
      modifies this
      ensures Reports(Decode(discard, MSG_TRADE, dAtA, 0, old(Value())), err, Value())
      ensures err.None? ==> ReadFrom(discard, dAtA, old(creator), old(denomFrom), old(denomTo), old(amount),
          old(maxPrice), old(allowIncomplete), old(unknownFields))
    {
      hide Decode, Lex, ReadHeader, Pass.AfterTag, Pass.HasRecord, Pass.Outcome, ReadFrom;
      ghost var x := Value();
      ghost var goal := Decode(discard, MSG_TRADE, dAtA, 0, Value());
      err := None;
      var iNdEx := 0;
      Start(Pass(discard, MSG_TRADE, dAtA, 0, Value()));
      while iNdEx < |dAtA|
        invariant iNdEx <= |dAtA| && err == None
        invariant Pass(discard, MSG_TRADE, dAtA, iNdEx, Value()).Outcome() == goal
      {
        var preIndex := iNdEx;
        ghost var p := Pass(discard, MSG_TRADE, dAtA, preIndex, Value());
        var fieldNum, wireType;
        err, fieldNum, wireType, iNdEx := ReadTag(dAtA, iNdEx, p);
        if err.Some? { return; }
        err, iNdEx := UnmarshalField(dAtA, preIndex, iNdEx, fieldNum, wireType, discard, p);
        if err.Some? { return; }
      }
      Done(Pass(discard, MSG_TRADE, dAtA, iNdEx, Value()));
      DecodedIsReadFrom(discard, dAtA, x, old(creator), old(denomFrom), old(denomTo), old(amount),
          old(maxPrice), old(allowIncomplete), old(unknownFields));
    }
  }

  /** Fields of tx.pulsar.go:6987-7155: amount_used, amount_received. */
  const MSG_TRADE_RESPONSE: Schema := [KUint64, KUint64]

  class MsgTradeResponse {
    var amountUsed: int64
    var amountReceived: int64
    var unknownFields: Bytes

    ghost function Value(): Message
      reads this
    {
      Message([FUint64(ToUint64(amountUsed)), FUint64(ToUint64(amountReceived))], unknownFields)
    }

    constructor ()
      ensures Value() == Empty(MSG_TRADE_RESPONSE)
      ensures amountUsed == 0 && amountReceived == 0 && unknownFields == []
    {
      amountUsed := 0;
      amountReceived := 0;
      unknownFields := [];
    }

    method Size() returns (n: nat)
      requires Codec.Size(Value()) < INT_LIMIT
      ensures n == Codec.Size(Value())
    {
      hide SizeFields;
      ghost var x := Value();
      n := 0;
      NothingSized(x.fields);
      if amountUsed != 0 {
        n := n + 1 + Sov(ToUint64(amountUsed));
      }
      SizeFieldsStep(x.fields, 1);
      if amountReceived != 0 {
        n := n + 1 + Sov(ToUint64(amountReceived));
      }
      SizeFieldsStep(x.fields, 2);
      n := n + |unknownFields|;
      assert x.fields[..2] == x.fields;
    }

    /** What `marshal` returns: the given buffer, then the fields under their tag bytes. */
    ghost predicate Marshalled(buf: Bytes, out: Bytes)
      reads this
    {
      out == buf + (RecVarint(0x8, if amountUsed < 0 then amountUsed + 0x1_0000_0000_0000_0000 else amountUsed) +
                   RecVarint(0x10, if amountReceived < 0 then amountReceived + 0x1_0000_0000_0000_0000
                                   else amountReceived) +
                   unknownFields)
    }

    lemma EncodingIsMarshalled(buf: Bytes)
      ensures Marshalled(buf, buf + Encode(Value()))
    {
      hide EncodeField, EncodeFields, Rec, Recs, RecVarint, Encodings, Varint, Tag;
      var fs := Value().fields;
      FieldStep(fs, 1);
      VarintForm(0x8, 1, ToUint64(amountUsed));
      FieldStep(fs, 2);
      VarintForm(0x10, 2, ToUint64(amountReceived));
      assert fs[..2] == fs;
    }

    method Marshal(buf: Bytes) returns (out: Bytes)
      requires Codec.Size(Value()) < INT_LIMIT
      ensures out == buf + Encode(Value())
      ensures Marshalled(buf, out)
    {
      hide EncodeFields, Encode, AtField, Codec.Size, Marshalled;
      ghost var fs, full := Value().fields, Encode(Value());
      var size := Size();
      var dAtA, i := Allocate(Value(), size, unknownFields);
      i := PutUint64(dAtA, i, 0x10, ToUint64(amountReceived), fs, 2, full);
      i := PutUint64(dAtA, i, 0x8, ToUint64(amountUsed), fs, 1, full);
      AllWritten(dAtA, i, fs, full);
      out := buf + dAtA[..];
      EncodingIsMarshalled(buf);
    }

    /** The field switch of the loop: one record, from its tag on. */
    method UnmarshalField(dAtA: Bytes, preIndex: nat, from: nat, fieldNum: nat, wireType: nat, discard: bool,
        ghost p: Pass)
      returns (err: Option<Error>, postIndex: nat)
      requires p == Pass(discard, MSG_TRADE_RESPONSE, dAtA, preIndex, Value())
      requires p.AfterTag(from, fieldNum, wireType)
      requires fieldNum >= 1 && preIndex < from <= |dAtA| < INT_LIMIT
      modifies this
      ensures p.Leads(err, postIndex, Value()) && (err.None? ==> preIndex < postIndex <= |dAtA|)
    {
      hide Decode, Lex, ReadHeader, Pass.AfterTag, Pass.HasRecord, Pass.Outcome, Empty, Reports;
      var iNdEx := from;
      match fieldNum {
      case 1 =>
        var value;
        err, value, postIndex := ReadScalar(dAtA, iNdEx, 1, wireType, p);
        if err.None? {
          amountUsed := ToInt64(value);
          NextScalar(p, value, postIndex, 0, Value());
        }
      case 2 =>
        var value;
        err, value, postIndex := ReadScalar(dAtA, iNdEx, 2, wireType, p);
        if err.None? {
          amountReceived := ToInt64(value);
          NextScalar(p, value, postIndex, 1, Value());
        }
      case _ =>
        err, postIndex := SkipRecord(dAtA, preIndex, iNdEx, fieldNum, wireType, p);
        if err.None? {
          if !discard {
            unknownFields := unknownFields + dAtA[preIndex..postIndex];
          }
          NextUnknown(p, postIndex, Value());
        }
      }
    }

    /** What a successful `unmarshal` of `b` makes of the variables that were `...0`. */
    ghost predicate ReadFrom(discard: bool, b: Bytes, amountUsed0: int64, amountReceived0: int64,
        unknown0: Bytes)
      reads this
    {
      && amountUsed == LatestInt64(Contents(b, 1), amountUsed0)
      && amountReceived == LatestInt64(Contents(b, 2), amountReceived0)
      && unknownFields == unknown0 + if discard then [] else Others(b, {1, 2})
    }

    lemma DecodedIsReadFrom(discard: bool, b: Bytes, x: Message, amountUsed0: int64, amountReceived0: int64,
        unknown0: Bytes)
      requires Decoded(discard, MSG_TRADE_RESPONSE, b, x, Value()) && x.unknown == unknown0
      requires x.fields == [FUint64(ToUint64(amountUsed0)), FUint64(ToUint64(amountReceived0))]
      ensures ReadFrom(discard, b, amountUsed0, amountReceived0, unknown0)
    {
      hide Decode, Contents, Others, Latest, LatestVarint, LatestInt64, LatestBool, ListAfter, MessageAfter;
      hide Encode, EncodeFields, Codec.Size, SizeFields, Valid, ValidUnknown;
      var y := Value();
      assert Decoded(discard, MSG_TRADE_RESPONSE, b, x, y);
      hide Decoded;
      Int64Read(discard, MSG_TRADE_RESPONSE, b, x, y, 0, amountUsed0, amountUsed);
      Int64Read(discard, MSG_TRADE_RESPONSE, b, x, y, 1, amountReceived0, amountReceived);
      OthersRead(discard, MSG_TRADE_RESPONSE, b, x, y, {1, 2});
    }

    method Unmarshal(dAtA: Bytes, discard: bool) returns (err: Option<Error>)
      requires |dAtA| < INT_LIMIT
      modifies this
      ensures Reports(Decode(discard, MSG_TRADE_RESPONSE, dAtA, 0, old(Value())), err, Value())
      ensures err.None? ==> ReadFrom(discard, dAtA, old(amountUsed), old(amountReceived), old(unknownFields))
    {
      hide Decode, Lex, ReadHeader, Pass.AfterTag, Pass.HasRecord, Pass.Outcome, ReadFrom;
      ghost var x := Value();
      ghost var goal := Decode(discard, MSG_TRADE_RESPONSE, dAtA, 0, Value());
      err := None;
      var iNdEx := 0;
      Start(Pass(discard, MSG_TRADE_RESPONSE, dAtA, 0, Value()));
      while iNdEx < |dAtA|
        invariant iNdEx <= |dAtA| && err == None
        invariant Pass(discard, MSG_TRADE_RESPONSE, dAtA, iNdEx, Value()).Outcome() == goal
      {
        var preIndex := iNdEx;
        ghost var p := Pass(discard, MSG_TRADE_RESPONSE, dAtA, preIndex, Value());
        var fieldNum, wireType;
        err, fieldNum, wireType, iNdEx := ReadTag(dAtA, iNdEx, p);
        if err.Some? { return; }
        err, iNdEx := UnmarshalField(dAtA, preIndex, iNdEx, fieldNum, wireType, discard, p);
        if err.Some? { return; }
      }
      Done(Pass(discard, MSG_TRADE_RESPONSE, dAtA, iNdEx, Value()));
      DecodedIsReadFrom(discard, dAtA, x, old(amountUsed), old(amountReceived), old(unknownFields));
    }
  }
}
