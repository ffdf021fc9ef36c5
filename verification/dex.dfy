/** The messages of api/kopi/dex/liquidity_next_index.pulsar.go and api/kopi/dex/discount_level.pulsar.go. */
module Dex {
  import opened Wire
  import opened Codec
  import opened Fields
  import opened Layout
  import opened Reader
  import opened Writer

  type uint64 = v: nat | v < UINT64

  /** Fields of liquidity_next_index.pulsar.go:265-407: next. */
  const LIQUIDITY_NEXT_INDEX: Schema := [KUint64]

  class LiquidityNextIndex {
    var next: uint64
    var unknownFields: Bytes

    ghost function Value(): Message
      reads this
    {
      Message([FUint64(next)], unknownFields)
    }

    constructor ()
      ensures Value() == Empty(LIQUIDITY_NEXT_INDEX)
      ensures next == 0 && unknownFields == []
    {
      next := 0;
      unknownFields := [];
    }

    method Size() returns (n: nat)
      requires Codec.Size(Value()) < INT_LIMIT
      ensures n == Codec.Size(Value())
    {
      hide SizeFields;
      ghost var x := Value();
      n := 0;
      NothingSized(x.fields);
      if next != 0 {
        n := n + 1 + Sov(next);
      }
      SizeFieldsStep(x.fields, 1);
      n := n + |unknownFields|;
      assert x.fields[..1] == x.fields;
    }

    /** What `marshal` returns: the given buffer, then the fields under their tag bytes. */
    ghost predicate Marshalled(buf: Bytes, out: Bytes)
      reads this
    {
      out == buf + (RecVarint(0x8, next) + unknownFields)
    }

    lemma EncodingIsMarshalled(buf: Bytes)
      ensures Marshalled(buf, buf + Encode(Value()))
    {
      hide EncodeField, EncodeFields, Rec, Recs, RecVarint, Encodings, Varint, Tag;
      var fs := Value().fields;
      FieldStep(fs, 1);
      VarintForm(0x8, 1, next);
      assert fs[..1] == fs;
    }

    method Marshal(buf: Bytes) returns (out: Bytes)
      requires Codec.Size(Value()) < INT_LIMIT
      ensures out == buf + Encode(Value())
      ensures Marshalled(buf, out)
    {
      hide EncodeFields, Encode, AtField, Codec.Size, Marshalled;
      ghost var fs, full := Value().fields, Encode(Value());
      var size := Size();
      var dAtA, i := Allocate(Value(), size, unknownFields);
      i := PutUint64(dAtA, i, 0x8, next, fs, 1, full);
      AllWritten(dAtA, i, fs, full);
      out := buf + dAtA[..];
      EncodingIsMarshalled(buf);
    }

    /** The field switch of the loop: one record, from its tag on. */
    method UnmarshalField(dAtA: Bytes, preIndex: nat, from: nat, fieldNum: nat, wireType: nat, discard: bool,
        ghost p: Pass)
      returns (err: Option<Error>, postIndex: nat)
      requires p == Pass(discard, LIQUIDITY_NEXT_INDEX, dAtA, preIndex, Value())
      requires p.AfterTag(from, fieldNum, wireType)
      requires fieldNum >= 1 && preIndex < from <= |dAtA| < INT_LIMIT
      modifies this
      ensures p.Leads(err, postIndex, Value()) && (err.None? ==> preIndex < postIndex <= |dAtA|)
    {
      hide Decode, Lex, ReadHeader, Pass.AfterTag, Pass.HasRecord, Pass.Outcome, Empty, Reports;
      var iNdEx := from;
      match fieldNum {
      case 1 =>
        var value;
        err, value, postIndex := ReadScalar(dAtA, iNdEx, 1, wireType, p);
        if err.None? {
          next := value;
          NextScalar(p, value, postIndex, 0, Value());
        }
      case _ =>
        err, postIndex := SkipRecord(dAtA, preIndex, iNdEx, fieldNum, wireType, p);
        if err.None? {
          if !discard {
            unknownFields := unknownFields + dAtA[preIndex..postIndex];
          }
          NextUnknown(p, postIndex, Value());
        }
      }
    }

    /** What a successful `unmarshal` of `b` makes of the variables that were `...0`. */
    ghost predicate ReadFrom(discard: bool, b: Bytes, next0: uint64, unknown0: Bytes)
      reads this
    {
      && next == LatestVarint(Contents(b, 1), next0)
      && unknownFields == unknown0 + if discard then [] else Others(b, {1})
    }

    lemma DecodedIsReadFrom(discard: bool, b: Bytes, x: Message, next0: uint64, unknown0: Bytes)
      requires Decoded(discard, LIQUIDITY_NEXT_INDEX, b, x, Value()) && x.unknown == unknown0
      requires x.fields == [FUint64(next0)]
      ensures ReadFrom(discard, b, next0, unknown0)
    {
      hide Decode, Contents, Others, Latest, LatestVarint, LatestInt64, LatestBool, ListAfter, MessageAfter;
      hide Encode, EncodeFields, Codec.Size, SizeFields, Valid, ValidUnknown;
      var y := Value();
      assert Decoded(discard, LIQUIDITY_NEXT_INDEX, b, x, y);
      hide Decoded;
      VarintRead(discard, LIQUIDITY_NEXT_INDEX, b, x, y, 0, next0, next);
      OthersRead(discard, LIQUIDITY_NEXT_INDEX, b, x, y, {1});
    }

    method Unmarshal(dAtA: Bytes, discard: bool) returns (err: Option<Error>)
      requires |dAtA| < INT_LIMIT
      modifies this
      ensures Reports(Decode(discard, LIQUIDITY_NEXT_INDEX, dAtA, 0, old(Value())), err, Value())
      ensures err.None? ==> ReadFrom(discard, dAtA, old(next), old(unknownFields))
    {
      hide Decode, Lex, ReadHeader, Pass.AfterTag, Pass.HasRecord, Pass.Outcome, ReadFrom;
      ghost var x := Value();
      ghost var goal := Decode(discard, LIQUIDITY_NEXT_INDEX, dAtA, 0, Value());
      err := None;
      var iNdEx := 0;
      Start(Pass(discard, LIQUIDITY_NEXT_INDEX, dAtA, 0, Value()));
      while iNdEx < |dAtA|
        invariant iNdEx <= |dAtA| && err == None
        invariant Pass(discard, LIQUIDITY_NEXT_INDEX, dAtA, iNdEx, Value()).Outcome() == goal
      {
        var preIndex := iNdEx;
        ghost var p := Pass(discard, LIQUIDITY_NEXT_INDEX, dAtA, preIndex, Value());
        var fieldNum, wireType;
        err, fieldNum, wireType, iNdEx := ReadTag(dAtA, iNdEx, p);
        if err.Some? { return; }
        err, iNdEx := UnmarshalField(dAtA, preIndex, iNdEx, fieldNum, wireType, discard, p);
        if err.Some? { return; }
      }
      Done(Pass(discard, LIQUIDITY_NEXT_INDEX, dAtA, iNdEx, Value()));
      DecodedIsReadFrom(discard, dAtA, x, old(next), old(unknownFields));
    }
  }

  /** Fields of discount_level.pulsar.go:288-493: trade_amount, discount. */
  const DISCOUNT_LEVEL: Schema := [KBytes, KBytes]

  class DiscountLevel {
    var tradeAmount: Bytes
    var discount: Bytes
    var unknownFields: Bytes

    ghost function Value(): Message
      reads this
    {
      Message([FBytes(tradeAmount), FBytes(discount)], unknownFields)
    }

    constructor ()
      ensures Value() == Empty(DISCOUNT_LEVEL)
      ensures tradeAmount == [] && discount == [] && unknownFields == []
    {
      tradeAmount := [];
      discount := [];
      unknownFields := [];
    }

    method Size() returns (n: nat)
      requires Codec.Size(Value()) < INT_LIMIT
      ensures n == Codec.Size(Value())
    {
      hide SizeFields;
      ghost var x := Value();
      n := 0;
      NothingSized(x.fields);
      n := SizeOptional(n, tradeAmount, x.fields, 1);
      n := SizeOptional(n, discount, x.fields, 2);
      n := n + |unknownFields|;
      assert x.fields[..2] == x.fields;
    }

    /** What `marshal` returns: the given buffer, then the fields under their tag bytes. */
    ghost predicate Marshalled(buf: Bytes, out: Bytes)
      reads this
    {
      out == buf + (Rec(0xa, tradeAmount) + Rec(0x12, discount) + unknownFields)
    }

    lemma EncodingIsMarshalled(buf: Bytes)
      ensures Marshalled(buf, buf + Encode(Value()))
    {
      hide EncodeField, EncodeFields, Rec, Recs, RecVarint, Encodings, Varint, Tag;
      var fs := Value().fields;
      FieldStep(fs, 1);
      BytesForm(0xa, 1, tradeAmount);
      FieldStep(fs, 2);
      BytesForm(0x12, 2, discount);
      assert fs[..2] == fs;
    }

    method Marshal(buf: Bytes) returns (out: Bytes)
      requires Codec.Size(Value()) < INT_LIMIT
      ensures out == buf + Encode(Value())
      ensures Marshalled(buf, out)
    {
      hide EncodeFields, Encode, AtField, Codec.Size, Marshalled;
      ghost var fs, full := Value().fields, Encode(Value());
      var size := Size();
      var dAtA, i := Allocate(Value(), size, unknownFields);
      i := PutBytes(dAtA, i, 0x12, discount, fs, 2, full);
      i := PutBytes(dAtA, i, 0xa, tradeAmount, fs, 1, full);
      AllWritten(dAtA, i, fs, full);
      out := buf + dAtA[..];
      EncodingIsMarshalled(buf);
    }

    /** The field switch of the loop: one record, from its tag on. */
    method UnmarshalField(dAtA: Bytes, preIndex: nat, from: nat, fieldNum: nat, wireType: nat, discard: bool,
        ghost p: Pass)
      returns (err: Option<Error>, postIndex: nat)
      requires p == Pass(discard, DISCOUNT_LEVEL, dAtA, preIndex, Value())
      requires p.AfterTag(from, fieldNum, wireType)
      requires fieldNum >= 1 && preIndex < from <= |dAtA| < INT_LIMIT
      modifies this
      ensures p.Leads(err, postIndex, Value()) && (err.None? ==> preIndex < postIndex <= |dAtA|)
    {
      hide Decode, Lex, ReadHeader, Pass.AfterTag, Pass.HasRecord, Pass.Outcome, Empty, Reports;
      var iNdEx := from;
      match fieldNum {
      case 1 =>
        err, iNdEx, postIndex := ReadPayload(dAtA, iNdEx, 1, wireType, p);
        if err.None? {
          tradeAmount := dAtA[iNdEx..postIndex];
          NextBytes(p, iNdEx, postIndex, 0, Value());
        }
      case 2 =>
        err, iNdEx, postIndex := ReadPayload(dAtA, iNdEx, 2, wireType, p);
        if err.None? {
          discount := dAtA[iNdEx..postIndex];
          NextBytes(p, iNdEx, postIndex, 1, Value());
        }
      case _ =>
        err, postIndex := SkipRecord(dAtA, preIndex, iNdEx, fieldNum, wireType, p);
        if err.None? {
          if !discard {
            unknownFields := unknownFields + dAtA[preIndex..postIndex];
          }
          NextUnknown(p, postIndex, Value());
        }
      }
    }

    /** What a successful `unmarshal` of `b` makes of the variables that were `...0`. */
    ghost predicate ReadFrom(discard: bool, b: Bytes, tradeAmount0: Bytes, discount0: Bytes, unknown0: Bytes)
      reads this
    {
      && tradeAmount == Latest(Contents(b, 1), tradeAmount0)
      && discount == Latest(Contents(b, 2), discount0)
      && unknownFields == unknown0 + if discard then [] else Others(b, {1, 2})
    }

    lemma DecodedIsReadFrom(discard: bool, b: Bytes, x: Message, tradeAmount0: Bytes, discount0: Bytes,
        unknown0: Bytes)
      requires Decoded(discard, DISCOUNT_LEVEL, b, x, Value()) && x.unknown == unknown0
      requires x.fields == [FBytes(tradeAmount0), FBytes(discount0)]
      ensures ReadFrom(discard, b, tradeAmount0, discount0, unknown0)
    {
      hide Decode, Contents, Others, Latest, LatestVarint, LatestInt64, LatestBool, ListAfter, MessageAfter;
      hide Encode, EncodeFields, Codec.Size, SizeFields, Valid, ValidUnknown;
      var y := Value();
      assert Decoded(discard, DISCOUNT_LEVEL, b, x, y);
      hide Decoded;
      BytesRead(discard, DISCOUNT_LEVEL, b, x, y, 0, tradeAmount0, tradeAmount);
      BytesRead(discard, DISCOUNT_LEVEL, b, x, y, 1, discount0, discount);
      OthersRead(discard, DISCOUNT_LEVEL, b, x, y, {1, 2});
    }

    method Unmarshal(dAtA: Bytes, discard: bool) returns (err: Option<Error>)
      requires |dAtA| < INT_LIMIT
      modifies this
      ensures Reports(Decode(discard, DISCOUNT_LEVEL, dAtA, 0, old(Value())), err, Value())
      ensures err.None? ==> ReadFrom(discard, dAtA, old(tradeAmount), old(discount), old(unknownFields))
    {
      hide Decode, Lex, ReadHeader, Pass.AfterTag, Pass.HasRecord, Pass.Outcome, ReadFrom;
      ghost var x := Value();
      ghost var goal := Decode(discard, DISCOUNT_LEVEL, dAtA, 0, Value());
      err := None;
      var iNdEx := 0;
      Start(Pass(discard, DISCOUNT_LEVEL, dAtA, 0, Value()));
      while iNdEx < |dAtA|
        invariant iNdEx <= |dAtA| && err == None
        invariant Pass(discard, DISCOUNT_LEVEL, dAtA, iNdEx, Value()).Outcome() == goal
      {
        var preIndex := iNdEx;
        ghost var p := Pass(discard, DISCOUNT_LEVEL, dAtA, preIndex, Value());
        var fieldNum, wireType;
        err, fieldNum, wireType, iNdEx := ReadTag(dAtA, iNdEx, p);
        if err.Some? { return; }
        err, iNdEx := UnmarshalField(dAtA, preIndex, iNdEx, fieldNum, wireType, discard, p);
        if err.Some? { return; }
      }
      Done(Pass(discard, DISCOUNT_LEVEL, dAtA, iNdEx, Value()));
      DecodedIsReadFrom(discard, dAtA, x, old(tradeAmount), old(discount), old(unknownFields));
    }
  }
}
