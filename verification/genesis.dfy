/** The genesis state of api/kopi/denominations/genesis.pulsar.go. */
module DenominationsGenesis {
  import opened Wire
  import opened Codec
  import opened Fields
  import opened Layout
  import opened Reader
  import opened Sizes
  import opened Writer
  import opened DenominationsParams

  /** Fields of genesis.pulsar.go:271-440: params. */
  const GENESIS_STATE: Schema := [KMessage(PARAMS)]

  class GenesisState {
    var params: Params?
    var unknownFields: Bytes

    ghost function Parts(): set<object>
      reads this, params
    {
      if params == null then {} else {params} + params.Parts()
    }

    ghost function Value(): Message
      reads this, Parts(), params
    {
      Message([FMessage(if params == null then None else Some(params.Value()))], unknownFields)
    }

    ghost function ParamsValue(): Option<Message>
      reads this, Parts(), params
    {
      if params == null then None else Some(params.Value())
    }

    constructor ()
      ensures Value() == Empty(GENESIS_STATE)
      ensures params == null && unknownFields == []
    {
      params := null;
      unknownFields := [];
      new;
      assert Value().fields == Empty(GENESIS_STATE).fields;
    }

    method Size() returns (n: nat)
      requires Codec.Size(Value()) < INT_LIMIT
      ensures n == Codec.Size(Value())
    {
      hide SizeFields;
      ghost var x := Value();
      n := 0;
      NothingSized(x.fields);
      if params != null {
        PartSize(x, 0, 0);
        var l := params.Size();
        n := n + 1 + l + Sov(l);
      }
      SizeFieldsStep(x.fields, 1);
      n := n + |unknownFields|;
      assert x.fields[..1] == x.fields;
    }

    /** What `marshal` returns: the given buffer, then the fields under their tag bytes. */
    ghost predicate Marshalled(buf: Bytes, out: Bytes)
      reads this, Parts(), params
    {
      out == buf + (Recs(0xa, if params == null then [] else [Encode(params.Value())]) + unknownFields)
    }

    lemma EncodingIsMarshalled(buf: Bytes)
      ensures Marshalled(buf, buf + Encode(Value()))
    {
      hide EncodeField, EncodeFields, Rec, Recs, RecVarint, Encodings, Varint, Tag;
      var fs := Value().fields;
      FieldStep(fs, 1);
      MessageForm(0xa, 1, fs[0].m);
      assert fs[..1] == fs;
    }

    method Marshal(buf: Bytes) returns (out: Bytes)
      requires Codec.Size(Value()) < INT_LIMIT
      ensures out == buf + Encode(Value())
      ensures Marshalled(buf, out)
    {
      hide EncodeFields, Encode, AtField, Codec.Size, Marshalled, Params.Marshalled;
      ghost var x, fs, full := Value(), Value().fields, Encode(Value());
      var size := Size();
      var dAtA, i := Allocate(Value(), size, unknownFields);
      if params != null {
        PartSize(x, 0, 0);
        var encoded := params.Marshal([]);
        i := PutMessage(dAtA, i, 0xa, encoded, params.Value(), fs, 1, full);
      } else {
        AbsentMessage(dAtA, i, fs, 1, full);
      }
      AllWritten(dAtA, i, fs, full);
      out := buf + dAtA[..];
      EncodingIsMarshalled(buf);
    }

    /** Field 1 of `unmarshal`: the sub-message is allocated when absent, then decoded into. */
    method MergeParams(dAtA: Bytes, from: nat, postIndex: nat, discard: bool, ghost p: Pass)
      returns (err: Option<Error>)
      requires from <= postIndex <= |dAtA| < INT_LIMIT && p.s == GENESIS_STATE
      requires p.discard == discard && p.buf == dAtA && p.x == Value()
      requires p.HasRecord(Payload(0, dAtA[from..postIndex]), postIndex)
      modifies this`params, params
      ensures params == old(params) || fresh(params)
      ensures p.Leads(err, postIndex, Value())
    {
      hide Decode, Empty, Pass.HasRecord, Pass.Outcome, Reports, Params.ReadFrom;
      if params == null {
        params := new Params();
      }
      err := params.Unmarshal(dAtA[from..postIndex], discard);
      NextMessage(p, from, postIndex, 0, err, params.Value(), Value());
    }

    /** The field switch of the loop: one record, from its tag on. */
    method UnmarshalField(dAtA: Bytes, preIndex: nat, from: nat, fieldNum: nat, wireType: nat, discard: bool,
        ghost p: Pass)
      returns (err: Option<Error>, postIndex: nat)
      requires p == Pass(discard, GENESIS_STATE, dAtA, preIndex, Value())
      requires p.AfterTag(from, fieldNum, wireType)
      requires fieldNum >= 1 && preIndex < from <= |dAtA| < INT_LIMIT
      modifies this, params
      ensures params == old(params) || fresh(params)
      ensures p.Leads(err, postIndex, Value()) && (err.None? ==> preIndex < postIndex <= |dAtA|)
    {
      hide Decode, Lex, ReadHeader, Pass.AfterTag, Pass.HasRecord, Pass.Outcome, Empty, Reports;
      var iNdEx := from;
      match fieldNum {
      case 1 =>
        err, iNdEx, postIndex := ReadPayload(dAtA, iNdEx, 1, wireType, p);
        if err.None? {
          err := MergeParams(dAtA, iNdEx, postIndex, discard, p);
        }
      case _ =>
        err, postIndex := SkipRecord(dAtA, preIndex, iNdEx, fieldNum, wireType, p);
        if err.None? {
          if !discard {
            unknownFields := unknownFields + dAtA[preIndex..postIndex];
          }
          NextUnknown(p, postIndex, Value());
        }
      }
    }

    /** What a successful `unmarshal` of `b` makes of the variables that were `...0`. */
    ghost predicate ReadFrom(discard: bool, b: Bytes, params0: Option<Message>, unknown0: Bytes)
      reads this, Parts(), params
    {
      && MessageAfter(discard, PARAMS, params0, Contents(b, 1), ParamsValue())
      && unknownFields == unknown0 + if discard then [] else Others(b, {1})
    }

    lemma DecodedIsReadFrom(discard: bool, b: Bytes, x: Message, params0: Option<Message>, unknown0: Bytes)
      requires Decoded(discard, GENESIS_STATE, b, x, Value()) && x.unknown == unknown0
      requires x.fields == [FMessage(params0)]
      ensures ReadFrom(discard, b, params0, unknown0)
    {
      hide Decode, Contents, Others, Latest, LatestVarint, LatestInt64, LatestBool, ListAfter, MessageAfter;
      hide Encode, EncodeFields, Codec.Size, SizeFields, Valid, ValidUnknown;
      var y := Value();
      assert Decoded(discard, GENESIS_STATE, b, x, y);
      hide Decoded;
      MessageRead(discard, GENESIS_STATE, b, x, y, 0, params0, ParamsValue());
      OthersRead(discard, GENESIS_STATE, b, x, y, {1});
    }

    method Unmarshal(dAtA: Bytes, discard: bool) returns (err: Option<Error>)
      requires |dAtA| < INT_LIMIT
      modifies this, params
      ensures params == old(params) || fresh(params)
      ensures Reports(Decode(discard, GENESIS_STATE, dAtA, 0, old(Value())), err, Value())
      ensures err.None? ==> ReadFrom(discard, dAtA, old(ParamsValue()), old(unknownFields))
    {
      hide Decode, Lex, ReadHeader, Pass.AfterTag, Pass.HasRecord, Pass.Outcome, ReadFrom;
      ghost var x := Value();
      ghost var goal := Decode(discard, GENESIS_STATE, dAtA, 0, Value());
      err := None;
      var iNdEx := 0;
      Start(Pass(discard, GENESIS_STATE, dAtA, 0, Value()));
      while iNdEx < |dAtA|
        invariant iNdEx <= |dAtA| && err == None
        invariant params == old(params) || fresh(params)
        invariant Pass(discard, GENESIS_STATE, dAtA, iNdEx, Value()).Outcome() == goal
      {
        var preIndex := iNdEx;
        ghost var p := Pass(discard, GENESIS_STATE, dAtA, preIndex, Value());
        var fieldNum, wireType;
        err, fieldNum, wireType, iNdEx := ReadTag(dAtA, iNdEx, p);
        if err.Some? { return; }
        err, iNdEx := UnmarshalField(dAtA, preIndex, iNdEx, fieldNum, wireType, discard, p);
        if err.Some? { return; }
      }
      Done(Pass(discard, GENESIS_STATE, dAtA, iNdEx, Value()));
      DecodedIsReadFrom(discard, dAtA, x, old(ParamsValue()), old(unknownFields));
    }
  }
}
