/** The messages of api/kopi/denominations/params.pulsar.go: the module parameters and
    their four kinds of list elements. */
module DenominationsParams {
  import opened Wire
  import opened Codec
  import opened Fields
  import opened Layout
  import opened Reader
  import opened Sizes
  import opened Writer

  /** Fields of params.pulsar.go:309-557: name, factor, min_liquidity. */
  const DEX_DENOM: Schema := [KBytes, KBytes, KBytes]

  class DexDenom {
    var name: Bytes
    var factor: Bytes
    var minLiquidity: Bytes
    var unknownFields: Bytes

    ghost function Value(): Message
      reads this
    {
      Message([FBytes(name), FBytes(factor), FBytes(minLiquidity)], unknownFields)
    }

    static ghost function Values(xs: seq<DexDenom>): seq<Message>
      reads xs
    {
      seq(|xs|, i requires 0 <= i < |xs| reads xs => xs[i].Value())
    }

    constructor ()
      ensures Value() == Empty(DEX_DENOM)
      ensures name == [] && factor == [] && minLiquidity == [] && unknownFields == []
    {
      name := [];
      factor := [];
      minLiquidity := [];
      unknownFields := [];
    }

    method Size() returns (n: nat)
      requires Codec.Size(Value()) < INT_LIMIT
      ensures n == Codec.Size(Value())
    {
      hide SizeFields;
      ghost var x := Value();
      n := 0;
      NothingSized(x.fields);
      n := SizeOptional(n, name, x.fields, 1);
      n := SizeOptional(n, factor, x.fields, 2);
      n := SizeOptional(n, minLiquidity, x.fields, 3);
      n := n + |unknownFields|;
      assert x.fields[..3] == x.fields;
    }

    /** What `marshal` returns: the given buffer, then the fields under their tag bytes. */
    ghost predicate Marshalled(buf: Bytes, out: Bytes)
      reads this
    {
      out == buf + (Rec(0xa, name) + Rec(0x12, factor) + Rec(0x1a, minLiquidity) + unknownFields)
    }

    lemma EncodingIsMarshalled(buf: Bytes)
      ensures Marshalled(buf, buf + Encode(Value()))
    {
      hide EncodeField, EncodeFields, Rec, Recs, RecVarint, Encodings, Varint, Tag;
      var fs := Value().fields;
      FieldStep(fs, 1);
      BytesForm(0xa, 1, name);
      FieldStep(fs, 2);
      BytesForm(0x12, 2, factor);
      FieldStep(fs, 3);
      BytesForm(0x1a, 3, minLiquidity);
      assert fs[..3] == fs;
    }

    method Marshal(buf: Bytes) returns (out: Bytes)
      requires Codec.Size(Value()) < INT_LIMIT
      ensures out == buf + Encode(Value())
      ensures Marshalled(buf, out)
    {
      hide EncodeFields, Encode, AtField, Codec.Size, Marshalled;
      ghost var fs, full := Value().fields, Encode(Value());
      var size := Size();
      var dAtA, i := Allocate(Value(), size, unknownFields);
      i := PutBytes(dAtA, i, 0x1a, minLiquidity, fs, 3, full);
      i := PutBytes(dAtA, i, 0x12, factor, fs, 2, full);
      i := PutBytes(dAtA, i, 0xa, name, fs, 1, full);
      AllWritten(dAtA, i, fs, full);
      out := buf + dAtA[..];
      EncodingIsMarshalled(buf);
    }

    /** The field switch of the loop: one record, from its tag on. */
    method UnmarshalField(dAtA: Bytes, preIndex: nat, from: nat, fieldNum: nat, wireType: nat, discard: bool,
        ghost p: Pass)
      returns (err: Option<Error>, postIndex: nat)
      requires p == Pass(discard, DEX_DENOM, dAtA, preIndex, Value())
      requires p.AfterTag(from, fieldNum, wireType)
      requires fieldNum >= 1 && preIndex < from <= |dAtA| < INT_LIMIT
      modifies this
      ensures p.Leads(err, postIndex, Value()) && (err.None? ==> preIndex < postIndex <= |dAtA|)
    {
      hide Decode, Lex, ReadHeader, Pass.AfterTag, Pass.HasRecord, Pass.Outcome, Empty, Reports;
      var iNdEx := from;
      match fieldNum {
      case 1 =>
        err, iNdEx, postIndex := ReadPayload(dAtA, iNdEx, 1, wireType, p);
        if err.None? {
          name := dAtA[iNdEx..postIndex];
          NextBytes(p, iNdEx, postIndex, 0, Value());
        }
      case 2 =>
        err, iNdEx, postIndex := ReadPayload(dAtA, iNdEx, 2, wireType, p);
        if err.None? {
          factor := dAtA[iNdEx..postIndex];
          NextBytes(p, iNdEx, postIndex, 1, Value());
        }
      case 3 =>
        err, iNdEx, postIndex := ReadPayload(dAtA, iNdEx, 3, wireType, p);
        if err.None? {
          minLiquidity := dAtA[iNdEx..postIndex];
          NextBytes(p, iNdEx, postIndex, 2, Value());
        }
      case _ =>
        err, postIndex := SkipRecord(dAtA, preIndex, iNdEx, fieldNum, wireType, p);
        if err.None? {
          if !discard {
            unknownFields := unknownFields + dAtA[preIndex..postIndex];
          }
          NextUnknown(p, postIndex, Value());
        }
      }
    }

    /** What a successful `unmarshal` of `b` makes of the variables that were `...0`. */
    ghost predicate ReadFrom(discard: bool, b: Bytes, name0: Bytes, factor0: Bytes, minLiquidity0: Bytes,
        unknown0: Bytes)
      reads this
    {
      && name == Latest(Contents(b, 1), name0)
      && factor == Latest(Contents(b, 2), factor0)
      && minLiquidity == Latest(Contents(b, 3), minLiquidity0)
      && unknownFields == unknown0 + if discard then [] else Others(b, {1, 2, 3})
    }

    lemma DecodedIsReadFrom(discard: bool, b: Bytes, x: Message, name0: Bytes, factor0: Bytes,
        minLiquidity0: Bytes, unknown0: Bytes)
      requires Decoded(discard, DEX_DENOM, b, x, Value()) && x.unknown == unknown0
      requires x.fields == [FBytes(name0), FBytes(factor0), FBytes(minLiquidity0)]
      ensures ReadFrom(discard, b, name0, factor0, minLiquidity0, unknown0)
    {
      hide Decode, Contents, Others, Latest, LatestVarint, LatestInt64, LatestBool, ListAfter, MessageAfter;
      hide Encode, EncodeFields, Codec.Size, SizeFields, Valid, ValidUnknown;
      var y := Value();
      assert Decoded(discard, DEX_DENOM, b, x, y);
      hide Decoded;
      BytesRead(discard, DEX_DENOM, b, x, y, 0, name0, name);
      BytesRead(discard, DEX_DENOM, b, x, y, 1, factor0, factor);
      BytesRead(discard, DEX_DENOM, b, x, y, 2, minLiquidity0, minLiquidity);
      OthersRead(discard, DEX_DENOM, b, x, y, {1, 2, 3});
    }

    method Unmarshal(dAtA: Bytes, discard: bool) returns (err: Option<Error>)
      requires |dAtA| < INT_LIMIT
      modifies this
      ensures Reports(Decode(discard, DEX_DENOM, dAtA, 0, old(Value())), err, Value())
      ensures err.None? ==> ReadFrom(discard, dAtA, old(name), old(factor), old(minLiquidity),
          old(unknownFields))
    {
      hide Decode, Lex, ReadHeader, Pass.AfterTag, Pass.HasRecord, Pass.Outcome, ReadFrom;
      ghost var x := Value();
      ghost var goal := Decode(discard, DEX_DENOM, dAtA, 0, Value());
      err := None;
      var iNdEx := 0;
      Start(Pass(discard, DEX_DENOM, dAtA, 0, Value()));
      while iNdEx < |dAtA|
        invariant iNdEx <= |dAtA| && err == None
        invariant Pass(discard, DEX_DENOM, dAtA, iNdEx, Value()).Outcome() == goal
      {
        var preIndex := iNdEx;
        ghost var p := Pass(discard, DEX_DENOM, dAtA, preIndex, Value());
        var fieldNum, wireType;
        err, fieldNum, wireType, iNdEx := ReadTag(dAtA, iNdEx, p);
        if err.Some? { return; }
        err, iNdEx := UnmarshalField(dAtA, preIndex, iNdEx, fieldNum, wireType, discard, p);
        if err.Some? { return; }
      }
      Done(Pass(discard, DEX_DENOM, dAtA, iNdEx, Value()));
      DecodedIsReadFrom(discard, dAtA, x, old(name), old(factor), old(minLiquidity), old(unknownFields));
    }
  }

  /** Fields of params.pulsar.go:959-1299: denom, references, max_supply, max_mint_amount,
      max_burn_amount. */
  const K_COIN: Schema := [KBytes, KRepeated, KBytes, KBytes, KBytes]

  class KCoin {
    var denom: Bytes
    var references: seq<Bytes>
    var maxSupply: Bytes
    var maxMintAmount: Bytes
    var maxBurnAmount: Bytes
    var unknownFields: Bytes

    ghost function Value(): Message
      reads this
    {
      Message(
        [FBytes(denom), FRepeated(references), FBytes(maxSupply),
         FBytes(maxMintAmount), FBytes(maxBurnAmount)],
        unknownFields)
    }

    static ghost function Values(xs: seq<KCoin>): seq<Message>
      reads xs
    {
      seq(|xs|, i requires 0 <= i < |xs| reads xs => xs[i].Value())
    }

    constructor ()
      ensures Value() == Empty(K_COIN)
      ensures denom == [] && references == [] && maxSupply == [] && maxMintAmount == [] &&
              maxBurnAmount == [] && unknownFields == []
    {
      denom := [];
      references := [];
      maxSupply := [];
      maxMintAmount := [];
      maxBurnAmount := [];
      unknownFields := [];
    }

    method Size() returns (n: nat)
      requires Codec.Size(Value()) < INT_LIMIT
      ensures n == Codec.Size(Value())
    {
      hide SizeFields;
      ghost var x := Value();
      n := 0;
      NothingSized(x.fields);
      n := SizeOptional(n, denom, x.fields, 1);
      n := SizeRepeated(n, references, x.fields, 2);
      n := SizeOptional(n, maxSupply, x.fields, 3);
      n := SizeOptional(n, maxMintAmount, x.fields, 4);
      n := SizeOptional(n, maxBurnAmount, x.fields, 5);
      n := n + |unknownFields|;
      assert x.fields[..5] == x.fields;
    }

    /** What `marshal` returns: the given buffer, then the fields under their tag bytes. */
    ghost predicate Marshalled(buf: Bytes, out: Bytes)
      reads this
    {
      out == buf + (Rec(0xa, denom) + Recs(0x12, references) + Rec(0x1a, maxSupply) + Rec(0x22, maxMintAmount) +
                   Rec(0x2a, maxBurnAmount) + unknownFields)
    }

    lemma EncodingIsMarshalled(buf: Bytes)
      ensures Marshalled(buf, buf + Encode(Value()))
    {
      hide EncodeField, EncodeFields, Rec, Recs, RecVarint, Encodings, Varint, Tag;
      var fs := Value().fields;
      FieldStep(fs, 1);
      BytesForm(0xa, 1, denom);
      FieldStep(fs, 2);
      StringsForm(0x12, 2, references);
      FieldStep(fs, 3);
      BytesForm(0x1a, 3, maxSupply);
      FieldStep(fs, 4);
      BytesForm(0x22, 4, maxMintAmount);
      FieldStep(fs, 5);
      BytesForm(0x2a, 5, maxBurnAmount);
      assert fs[..5] == fs;
    }

    method Marshal(buf: Bytes) returns (out: Bytes)
      requires Codec.Size(Value()) < INT_LIMIT
      ensures out == buf + Encode(Value())
      ensures Marshalled(buf, out)
    {
      hide EncodeFields, Encode, AtField, Codec.Size, Marshalled;
      ghost var fs, full := Value().fields, Encode(Value());
      var size := Size();
      var dAtA, i := Allocate(Value(), size, unknownFields);
      i := PutBytes(dAtA, i, 0x2a, maxBurnAmount, fs, 5, full);
      i := PutBytes(dAtA, i, 0x22, maxMintAmount, fs, 4, full);
      i := PutBytes(dAtA, i, 0x1a, maxSupply, fs, 3, full);
      i := PutStrings(dAtA, i, 0x12, references, fs, 2, full);
      i := PutBytes(dAtA, i, 0xa, denom, fs, 1, full);
      AllWritten(dAtA, i, fs, full);
      out := buf + dAtA[..];
      EncodingIsMarshalled(buf);
    }

    /** The field switch of the loop: one record, from its tag on. */
    method UnmarshalField(dAtA: Bytes, preIndex: nat, from: nat, fieldNum: nat, wireType: nat, discard: bool,
        ghost p: Pass)
      returns (err: Option<Error>, postIndex: nat)
      requires p == Pass(discard, K_COIN, dAtA, preIndex, Value())
      requires p.AfterTag(from, fieldNum, wireType)
      requires fieldNum >= 1 && preIndex < from <= |dAtA| < INT_LIMIT
      modifies this
      ensures p.Leads(err, postIndex, Value()) && (err.None? ==> preIndex < postIndex <= |dAtA|)
    {
      hide Decode, Lex, ReadHeader, Pass.AfterTag, Pass.HasRecord, Pass.Outcome, Empty, Reports;
      var iNdEx := from;
      match fieldNum {
      case 1 =>
        err, iNdEx, postIndex := ReadPayload(dAtA, iNdEx, 1, wireType, p);
        if err.None? {
          denom := dAtA[iNdEx..postIndex];
          NextBytes(p, iNdEx, postIndex, 0, Value());
        }
      case 2 =>
        err, iNdEx, postIndex := ReadPayload(dAtA, iNdEx, 2, wireType, p);
        if err.None? {
          references := references + [dAtA[iNdEx..postIndex]];
          NextString(p, iNdEx, postIndex, 1, Value());
        }
      case 3 =>
        err, iNdEx, postIndex := ReadPayload(dAtA, iNdEx, 3, wireType, p);
        if err.None? {
          maxSupply := dAtA[iNdEx..postIndex];
          NextBytes(p, iNdEx, postIndex, 2, Value());
        }
      case 4 =>
        err, iNdEx, postIndex := ReadPayload(dAtA, iNdEx, 4, wireType, p);
        if err.None? {
          maxMintAmount := dAtA[iNdEx..postIndex];
          NextBytes(p, iNdEx, postIndex, 3, Value());
        }
      case 5 =>
        err, iNdEx, postIndex := ReadPayload(dAtA, iNdEx, 5, wireType, p);
        if err.None? {
          maxBurnAmount := dAtA[iNdEx..postIndex];
          NextBytes(p, iNdEx, postIndex, 4, Value());
        }
      case _ =>
        err, postIndex := SkipRecord(dAtA, preIndex, iNdEx, fieldNum, wireType, p);
        if err.None? {
          if !discard {
            unknownFields := unknownFields + dAtA[preIndex..postIndex];
          }
          NextUnknown(p, postIndex, Value());
        }
      }
    }

    /** What a successful `unmarshal` of `b` makes of the variables that were `...0`. */
    ghost predicate ReadFrom(discard: bool, b: Bytes, denom0: Bytes, references0: seq<Bytes>, maxSupply0: Bytes,
        maxMintAmount0: Bytes, maxBurnAmount0: Bytes, unknown0: Bytes)
      reads this
    {
      && denom == Latest(Contents(b, 1), denom0)
      && references == references0 + Contents(b, 2)
      && maxSupply == Latest(Contents(b, 3), maxSupply0)
      && maxMintAmount == Latest(Contents(b, 4), maxMintAmount0)
      && maxBurnAmount == Latest(Contents(b, 5), maxBurnAmount0)
      && unknownFields == unknown0 + if discard then [] else Others(b, {1, 2, 3, 4, 5})
    }

    lemma DecodedIsReadFrom(discard: bool, b: Bytes, x: Message, denom0: Bytes, references0: seq<Bytes>,
        maxSupply0: Bytes, maxMintAmount0: Bytes, maxBurnAmount0: Bytes, unknown0: Bytes)
      requires Decoded(discard, K_COIN, b, x, Value()) && x.unknown == unknown0
      requires x.fields == [FBytes(denom0), FRepeated(references0), FBytes(maxSupply0), FBytes(maxMintAmount0),
                            FBytes(maxBurnAmount0)]
      ensures ReadFrom(discard, b, denom0, references0, maxSupply0, maxMintAmount0, maxBurnAmount0, unknown0)
    {
      hide Decode, Contents, Others, Latest, LatestVarint, LatestInt64, LatestBool, ListAfter, MessageAfter;
      hide Encode, EncodeFields, Codec.Size, SizeFields, Valid, ValidUnknown;
      var y := Value();
      assert Decoded(discard, K_COIN, b, x, y);
      hide Decoded;
      BytesRead(discard, K_COIN, b, x, y, 0, denom0, denom);
      StringsRead(discard, K_COIN, b, x, y, 1, references0, references);
      BytesRead(discard, K_COIN, b, x, y, 2, maxSupply0, maxSupply);
      BytesRead(discard, K_COIN, b, x, y, 3, maxMintAmount0, maxMintAmount);
      BytesRead(discard, K_COIN, b, x, y, 4, maxBurnAmount0, maxBurnAmount);
      OthersRead(discard, K_COIN, b, x, y, {1, 2, 3, 4, 5});
    }

    method Unmarshal(dAtA: Bytes, discard: bool) returns (err: Option<Error>)
      requires |dAtA| < INT_LIMIT
      modifies this
      ensures Reports(Decode(discard, K_COIN, dAtA, 0, old(Value())), err, Value())
      ensures err.None? ==> ReadFrom(discard, dAtA, old(denom), old(references), old(maxSupply),
          old(maxMintAmount), old(maxBurnAmount), old(unknownFields))
    {
      hide Decode, Lex, ReadHeader, Pass.AfterTag, Pass.HasRecord, Pass.Outcome, ReadFrom;
      ghost var x := Value();
      ghost var goal := Decode(discard, K_COIN, dAtA, 0, Value());
      err := None;
      var iNdEx := 0;
      Start(Pass(discard, K_COIN, dAtA, 0, Value()));
      while iNdEx < |dAtA|
        invariant iNdEx <= |dAtA| && err == None
        invariant Pass(discard, K_COIN, dAtA, iNdEx, Value()).Outcome() == goal
      {
        var preIndex := iNdEx;
        ghost var p := Pass(discard, K_COIN, dAtA, preIndex, Value());
        var fieldNum, wireType;
        err, fieldNum, wireType, iNdEx := ReadTag(dAtA, iNdEx, p);
        if err.Some? { return; }
        err, iNdEx := UnmarshalField(dAtA, preIndex, iNdEx, fieldNum, wireType, discard, p);
        if err.Some? { return; }
      }
      Done(Pass(discard, K_COIN, dAtA, iNdEx, Value()));
      DecodedIsReadFrom(discard, dAtA, x, old(denom), old(references), old(maxSupply), old(maxMintAmount),
          old(maxBurnAmount), old(unknownFields));
    }
  }

  /** Fields of params.pulsar.go:1603-1851: denom, ltv, max_deposit. */
  const COLLATERAL_DENOM: Schema := [KBytes, KBytes, KBytes]

  class CollateralDenom {
    var denom: Bytes
    var ltv: Bytes
    var maxDeposit: Bytes
    var unknownFields: Bytes

    ghost function Value(): Message
      reads this
    {
      Message([FBytes(denom), FBytes(ltv), FBytes(maxDeposit)], unknownFields)
    }

    static ghost function Values(xs: seq<CollateralDenom>): seq<Message>
      reads xs
    {
      seq(|xs|, i requires 0 <= i < |xs| reads xs => xs[i].Value())
    }

    constructor ()
      ensures Value() == Empty(COLLATERAL_DENOM)
      ensures denom == [] && ltv == [] && maxDeposit == [] && unknownFields == []
    {
      denom := [];
      ltv := [];
      maxDeposit := [];
      unknownFields := [];
    }

    method Size() returns (n: nat)
      requires Codec.Size(Value()) < INT_LIMIT
      ensures n == Codec.Size(Value())
    {
      hide SizeFields;
      ghost var x := Value();
      n := 0;
      NothingSized(x.fields);
      n := SizeOptional(n, denom, x.fields, 1);
      n := SizeOptional(n, ltv, x.fields, 2);
      n := SizeOptional(n, maxDeposit, x.fields, 3);
      n := n + |unknownFields|;
      assert x.fields[..3] == x.fields;
    }

    /** What `marshal` returns: the given buffer, then the fields under their tag bytes. */
    ghost predicate Marshalled(buf: Bytes, out: Bytes)
      reads this
    {
      out == buf + (Rec(0xa, denom) + Rec(0x12, ltv) + Rec(0x1a, maxDeposit) + unknownFields)
    }

    lemma EncodingIsMarshalled(buf: Bytes)
      ensures Marshalled(buf, buf + Encode(Value()))
    {
      hide EncodeField, EncodeFields, Rec, Recs, RecVarint, Encodings, Varint, Tag;
      var fs := Value().fields;
      FieldStep(fs, 1);
      BytesForm(0xa, 1, denom);
      FieldStep(fs, 2);
      BytesForm(0x12, 2, ltv);
      FieldStep(fs, 3);
      BytesForm(0x1a, 3, maxDeposit);
      assert fs[..3] == fs;
    }

    method Marshal(buf: Bytes) returns (out: Bytes)
      requires Codec.Size(Value()) < INT_LIMIT
      ensures out == buf + Encode(Value())
      ensures Marshalled(buf, out)
    {
      hide EncodeFields, Encode, AtField, Codec.Size, Marshalled;
      ghost var fs, full := Value().fields, Encode(Value());
      var size := Size();
      var dAtA, i := Allocate(Value(), size, unknownFields);
      i := PutBytes(dAtA, i, 0x1a, maxDeposit, fs, 3, full);
      i := PutBytes(dAtA, i, 0x12, ltv, fs, 2, full);
      i := PutBytes(dAtA, i, 0xa, denom, fs, 1, full);
      AllWritten(dAtA, i, fs, full);
      out := buf + dAtA[..];
      EncodingIsMarshalled(buf);
    }

    /** The field switch of the loop: one record, from its tag on. */
    method UnmarshalField(dAtA: Bytes, preIndex: nat, from: nat, fieldNum: nat, wireType: nat, discard: bool,
        ghost p: Pass)
      returns (err: Option<Error>, postIndex: nat)
      requires p == Pass(discard, COLLATERAL_DENOM, dAtA, preIndex, Value())
      requires p.AfterTag(from, fieldNum, wireType)
      requires fieldNum >= 1 && preIndex < from <= |dAtA| < INT_LIMIT
      modifies this
      ensures p.Leads(err, postIndex, Value()) && (err.None? ==> preIndex < postIndex <= |dAtA|)
    {
      hide Decode, Lex, ReadHeader, Pass.AfterTag, Pass.HasRecord, Pass.Outcome, Empty, Reports;
      var iNdEx := from;
      match fieldNum {
      case 1 =>
        err, iNdEx, postIndex := ReadPayload(dAtA, iNdEx, 1, wireType, p);
        if err.None? {
          denom := dAtA[iNdEx..postIndex];
          NextBytes(p, iNdEx, postIndex, 0, Value());
        }
      case 2 =>
        err, iNdEx, postIndex := ReadPayload(dAtA, iNdEx, 2, wireType, p);
        if err.None? {
          ltv := dAtA[iNdEx..postIndex];
          NextBytes(p, iNdEx, postIndex, 1, Value());
        }
      case 3 =>
        err, iNdEx, postIndex := ReadPayload(dAtA, iNdEx, 3, wireType, p);
        if err.None? {
          maxDeposit := dAtA[iNdEx..postIndex];
          NextBytes(p, iNdEx, postIndex, 2, Value());
        }
      case _ =>
        err, postIndex := SkipRecord(dAtA, preIndex, iNdEx, fieldNum, wireType, p);
        if err.None? {
          if !discard {
            unknownFields := unknownFields + dAtA[preIndex..postIndex];
          }
          NextUnknown(p, postIndex, Value());
        }
      }
    }

    /** What a successful `unmarshal` of `b` makes of the variables that were `...0`. */
    ghost predicate ReadFrom(discard: bool, b: Bytes, denom0: Bytes, ltv0: Bytes, maxDeposit0: Bytes,
        unknown0: Bytes)
      reads this
    {
      && denom == Latest(Contents(b, 1), denom0)
      && ltv == Latest(Contents(b, 2), ltv0)
      && maxDeposit == Latest(Contents(b, 3), maxDeposit0)
      && unknownFields == unknown0 + if discard then [] else Others(b, {1, 2, 3})
    }

    lemma DecodedIsReadFrom(discard: bool, b: Bytes, x: Message, denom0: Bytes, ltv0: Bytes, maxDeposit0: Bytes,
        unknown0: Bytes)
      requires Decoded(discard, COLLATERAL_DENOM, b, x, Value()) && x.unknown == unknown0
      requires x.fields == [FBytes(denom0), FBytes(ltv0), FBytes(maxDeposit0)]
      ensures ReadFrom(discard, b, denom0, ltv0, maxDeposit0, unknown0)
    {
      hide Decode, Contents, Others, Latest, LatestVarint, LatestInt64, LatestBool, ListAfter, MessageAfter;
      hide Encode, EncodeFields, Codec.Size, SizeFields, Valid, ValidUnknown;
      var y := Value();
      assert Decoded(discard, COLLATERAL_DENOM, b, x, y);
      hide Decoded;
      BytesRead(discard, COLLATERAL_DENOM, b, x, y, 0, denom0, denom);
      BytesRead(discard, COLLATERAL_DENOM, b, x, y, 1, ltv0, ltv);
      BytesRead(discard, COLLATERAL_DENOM, b, x, y, 2, maxDeposit0, maxDeposit);
      OthersRead(discard, COLLATERAL_DENOM, b, x, y, {1, 2, 3});
    }

    method Unmarshal(dAtA: Bytes, discard: bool) returns (err: Option<Error>)
      requires |dAtA| < INT_LIMIT
      modifies this
      ensures Reports(Decode(discard, COLLATERAL_DENOM, dAtA, 0, old(Value())), err, Value())
      ensures err.None? ==> ReadFrom(discard, dAtA, old(denom), old(ltv), old(maxDeposit), old(unknownFields))
    {
      hide Decode, Lex, ReadHeader, Pass.AfterTag, Pass.HasRecord, Pass.Outcome, ReadFrom;
      ghost var x := Value();
      ghost var goal := Decode(discard, COLLATERAL_DENOM, dAtA, 0, Value());
      err := None;
      var iNdEx := 0;
      Start(Pass(discard, COLLATERAL_DENOM, dAtA, 0, Value()));
      while iNdEx < |dAtA|
        invariant iNdEx <= |dAtA| && err == None
        invariant Pass(discard, COLLATERAL_DENOM, dAtA, iNdEx, Value()).Outcome() == goal
      {
        var preIndex := iNdEx;
        ghost var p := Pass(discard, COLLATERAL_DENOM, dAtA, preIndex, Value());
        var fieldNum, wireType;
        err, fieldNum, wireType, iNdEx := ReadTag(dAtA, iNdEx, p);
        if err.Some? { return; }
        err, iNdEx := UnmarshalField(dAtA, preIndex, iNdEx, fieldNum, wireType, discard, p);
        if err.Some? { return; }
      }
      Done(Pass(discard, COLLATERAL_DENOM, dAtA, iNdEx, Value()));
      DecodedIsReadFrom(discard, dAtA, x, old(denom), old(ltv), old(maxDeposit), old(unknownFields));
    }
  }

  /** Fields of params.pulsar.go:2197-2533: name, base_denom, dex_fee_share, borrow_limit,
      minimum_loan_size. */
  const C_ASSET: Schema := [KBytes, KBytes, KBytes, KBytes, KBytes]

  class CAsset {
    var name: Bytes
    var baseDenom: Bytes
    var dexFeeShare: Bytes
    var borrowLimit: Bytes
    var minimumLoanSize: Bytes
    var unknownFields: Bytes

    ghost function Value(): Message
      reads this
    {
      Message(
        [FBytes(name), FBytes(baseDenom), FBytes(dexFeeShare),
         FBytes(borrowLimit), FBytes(minimumLoanSize)],
        unknownFields)
    }

    static ghost function Values(xs: seq<CAsset>): seq<Message>
      reads xs
    {
      seq(|xs|, i requires 0 <= i < |xs| reads xs => xs[i].Value())
    }

    constructor ()
      ensures Value() == Empty(C_ASSET)
      ensures name == [] && baseDenom == [] && dexFeeShare == [] && borrowLimit == [] &&
              minimumLoanSize == [] && unknownFields == []
    {
      name := [];
      baseDenom := [];
      dexFeeShare := [];
      borrowLimit := [];
      minimumLoanSize := [];
      unknownFields := [];
    }

    method Size() returns (n: nat)
      requires Codec.Size(Value()) < INT_LIMIT
      ensures n == Codec.Size(Value())
    {
      hide SizeFields;
      ghost var x := Value();
      n := 0;
      NothingSized(x.fields);
      n := SizeOptional(n, name, x.fields, 1);
      n := SizeOptional(n, baseDenom, x.fields, 2);
      n := SizeOptional(n, dexFeeShare, x.fields, 3);
      n := SizeOptional(n, borrowLimit, x.fields, 4);
      n := SizeOptional(n, minimumLoanSize, x.fields, 5);
      n := n + |unknownFields|;
      assert x.fields[..5] == x.fields;
    }

    /** What `marshal` returns: the given buffer, then the fields under their tag bytes. */
    ghost predicate Marshalled(buf: Bytes, out: Bytes)
      reads this
    {
      out == buf + (Rec(0xa, name) + Rec(0x12, baseDenom) + Rec(0x1a, dexFeeShare) + Rec(0x22, borrowLimit) +
                   Rec(0x2a, minimumLoanSize) + unknownFields)
    }

    lemma EncodingIsMarshalled(buf: Bytes)
      ensures Marshalled(buf, buf + Encode(Value()))
    {
      hide EncodeField, EncodeFields, Rec, Recs, RecVarint, Encodings, Varint, Tag;
      var fs := Value().fields;
      FieldStep(fs, 1);
      BytesForm(0xa, 1, name);
      FieldStep(fs, 2);
      BytesForm(0x12, 2, baseDenom);
      FieldStep(fs, 3);
      BytesForm(0x1a, 3, dexFeeShare);
      FieldStep(fs, 4);
      BytesForm(0x22, 4, borrowLimit);
      FieldStep(fs, 5);
      BytesForm(0x2a, 5, minimumLoanSize);
      assert fs[..5] == fs;
    }

    method Marshal(buf: Bytes) returns (out: Bytes)
      requires Codec.Size(Value()) < INT_LIMIT
      ensures out == buf + Encode(Value())
      ensures Marshalled(buf, out)
    {
      hide EncodeFields, Encode, AtField, Codec.Size, Marshalled;
      ghost var fs, full := Value().fields, Encode(Value());
      var size := Size();
      var dAtA, i := Allocate(Value(), size, unknownFields);
      i := PutBytes(dAtA, i, 0x2a, minimumLoanSize, fs, 5, full);
      i := PutBytes(dAtA, i, 0x22, borrowLimit, fs, 4, full);
      i := PutBytes(dAtA, i, 0x1a, dexFeeShare, fs, 3, full);
      i := PutBytes(dAtA, i, 0x12, baseDenom, fs, 2, full);
      i := PutBytes(dAtA, i, 0xa, name, fs, 1, full);
      AllWritten(dAtA, i, fs, full);
      out := buf + dAtA[..];
      EncodingIsMarshalled(buf);
    }

    /** The field switch of the loop: one record, from its tag on. */
    method UnmarshalField(dAtA: Bytes, preIndex: nat, from: nat, fieldNum: nat, wireType: nat, discard: bool,
        ghost p: Pass)
      returns (err: Option<Error>, postIndex: nat)
      requires p == Pass(discard, C_ASSET, dAtA, preIndex, Value())
      requires p.AfterTag(from, fieldNum, wireType)
      requires fieldNum >= 1 && preIndex < from <= |dAtA| < INT_LIMIT
      modifies this
      ensures p.Leads(err, postIndex, Value()) && (err.None? ==> preIndex < postIndex <= |dAtA|)
    {
      hide Decode, Lex, ReadHeader, Pass.AfterTag, Pass.HasRecord, Pass.Outcome, Empty, Reports;
      var iNdEx := from;
      match fieldNum {
      case 1 =>
        err, iNdEx, postIndex := ReadPayload(dAtA, iNdEx, 1, wireType, p);
        if err.None? {
          name := dAtA[iNdEx..postIndex];
          NextBytes(p, iNdEx, postIndex, 0, Value());
        }
      case 2 =>
        err, iNdEx, postIndex := ReadPayload(dAtA, iNdEx, 2, wireType, p);
        if err.None? {
          baseDenom := dAtA[iNdEx..postIndex];
          NextBytes(p, iNdEx, postIndex, 1, Value());
        }
      case 3 =>
        err, iNdEx, postIndex := ReadPayload(dAtA, iNdEx, 3, wireType, p);
        if err.None? {
          dexFeeShare := dAtA[iNdEx..postIndex];
          NextBytes(p, iNdEx, postIndex, 2, Value());
        }
      case 4 =>
        err, iNdEx, postIndex := ReadPayload(dAtA, iNdEx, 4, wireType, p);
        if err.None? {
          borrowLimit := dAtA[iNdEx..postIndex];
          NextBytes(p, iNdEx, postIndex, 3, Value());
        }
      case 5 =>
        err, iNdEx, postIndex := ReadPayload(dAtA, iNdEx, 5, wireType, p);
        if err.None? {
          minimumLoanSize := dAtA[iNdEx..postIndex];
          NextBytes(p, iNdEx, postIndex, 4, Value());
        }
      case _ =>
        err, postIndex := SkipRecord(dAtA, preIndex, iNdEx, fieldNum, wireType, p);
        if err.None? {
          if !discard {
            unknownFields := unknownFields + dAtA[preIndex..postIndex];
          }
          NextUnknown(p, postIndex, Value());
        }
      }
    }

    /** What a successful `unmarshal` of `b` makes of the variables that were `...0`. */
    ghost predicate ReadFrom(discard: bool, b: Bytes, name0: Bytes, baseDenom0: Bytes, dexFeeShare0: Bytes,
        borrowLimit0: Bytes, minimumLoanSize0: Bytes, unknown0: Bytes)
      reads this
    {
      && name == Latest(Contents(b, 1), name0)
      && baseDenom == Latest(Contents(b, 2), baseDenom0)
      && dexFeeShare == Latest(Contents(b, 3), dexFeeShare0)
      && borrowLimit == Latest(Contents(b, 4), borrowLimit0)
      && minimumLoanSize == Latest(Contents(b, 5), minimumLoanSize0)
      && unknownFields == unknown0 + if discard then [] else Others(b, {1, 2, 3, 4, 5})
    }

    lemma DecodedIsReadFrom(discard: bool, b: Bytes, x: Message, name0: Bytes, baseDenom0: Bytes,
        dexFeeShare0: Bytes, borrowLimit0: Bytes, minimumLoanSize0: Bytes, unknown0: Bytes)
      requires Decoded(discard, C_ASSET, b, x, Value()) && x.unknown == unknown0
      requires x.fields == [FBytes(name0), FBytes(baseDenom0), FBytes(dexFeeShare0), FBytes(borrowLimit0),
                            FBytes(minimumLoanSize0)]
      ensures ReadFrom(discard, b, name0, baseDenom0, dexFeeShare0, borrowLimit0, minimumLoanSize0, unknown0)
    {
      hide Decode, Contents, Others, Latest, LatestVarint, LatestInt64, LatestBool, ListAfter, MessageAfter;
      hide Encode, EncodeFields, Codec.Size, SizeFields, Valid, ValidUnknown;
      var y := Value();
      assert Decoded(discard, C_ASSET, b, x, y);
      hide Decoded;
      BytesRead(discard, C_ASSET, b, x, y, 0, name0, name);
      BytesRead(discard, C_ASSET, b, x, y, 1, baseDenom0, baseDenom);
      BytesRead(discard, C_ASSET, b, x, y, 2, dexFeeShare0, dexFeeShare);
      BytesRead(discard, C_ASSET, b, x, y, 3, borrowLimit0, borrowLimit);
      BytesRead(discard, C_ASSET, b, x, y, 4, minimumLoanSize0, minimumLoanSize);
      OthersRead(discard, C_ASSET, b, x, y, {1, 2, 3, 4, 5});
    }

    method Unmarshal(dAtA: Bytes, discard: bool) returns (err: Option<Error>)
      requires |dAtA| < INT_LIMIT
      modifies this
      ensures Reports(Decode(discard, C_ASSET, dAtA, 0, old(Value())), err, Value())
      ensures err.None? ==> ReadFrom(discard, dAtA, old(name), old(baseDenom), old(dexFeeShare),
          old(borrowLimit), old(minimumLoanSize), old(unknownFields))
    {
      hide Decode, Lex, ReadHeader, Pass.AfterTag, Pass.HasRecord, Pass.Outcome, ReadFrom;
      ghost var x := Value();
      ghost var goal := Decode(discard, C_ASSET, dAtA, 0, Value());
      err := None;
      var iNdEx := 0;
      Start(Pass(discard, C_ASSET, dAtA, 0, Value()));
      while iNdEx < |dAtA|
        invariant iNdEx <= |dAtA| && err == None
        invariant Pass(discard, C_ASSET, dAtA, iNdEx, Value()).Outcome() == goal
      {
        var preIndex := iNdEx;
        ghost var p := Pass(discard, C_ASSET, dAtA, preIndex, Value());
        var fieldNum, wireType;
        err, fieldNum, wireType, iNdEx := ReadTag(dAtA, iNdEx, p);
        if err.Some? { return; }
        err, iNdEx := UnmarshalField(dAtA, preIndex, iNdEx, fieldNum, wireType, discard, p);
        if err.Some? { return; }
      }
      Done(Pass(discard, C_ASSET, dAtA, iNdEx, Value()));
      DecodedIsReadFrom(discard, dAtA, x, old(name), old(baseDenom), old(dexFeeShare), old(borrowLimit),
          old(minimumLoanSize), old(unknownFields));
    }
  }

  /** Fields of params.pulsar.go:3102-3441: dex_denoms, k_coins, c_assets, collateral_denoms. */
  const PARAMS: Schema := [KMessages(DEX_DENOM), KMessages(K_COIN), KMessages(C_ASSET), KMessages(COLLATERAL_DENOM)]

  class Params {
    var dexDenoms: seq<DexDenom>
    var kCoins: seq<KCoin>
    var cAssets: seq<CAsset>
    var collateralDenoms: seq<CollateralDenom>
    var unknownFields: Bytes

    /** The objects of the lists. */
    ghost function Parts(): set<object>
      reads this
    {
      (set e: object | e in dexDenoms) +
      (set e: object | e in kCoins) +
      (set e: object | e in cAssets) +
      (set e: object | e in collateralDenoms)
    }

    ghost function Value(): Message
      reads this, Parts()
    {
      Message(
        [FMessages(DexDenom.Values(dexDenoms)),
         FMessages(KCoin.Values(kCoins)),
         FMessages(CAsset.Values(cAssets)),
         FMessages(CollateralDenom.Values(collateralDenoms))],
        unknownFields)
    }

    constructor ()
      ensures Value() == Empty(PARAMS)
      ensures dexDenoms == [] && kCoins == [] && cAssets == [] && collateralDenoms == [] && unknownFields == []
    {
      dexDenoms := [];
      kCoins := [];
      cAssets := [];
      collateralDenoms := [];
      unknownFields := [];
      new;
      assert Value().fields[0].ms == [];
      assert Value().fields[1].ms == [];
      assert Value().fields[2].ms == [];
      assert Value().fields[3].ms == [];
      assert Value().fields == Empty(PARAMS).fields;
    }

    method Size() returns (n: nat)
      requires Codec.Size(Value()) < INT_LIMIT
      ensures n == Codec.Size(Value())
    {
      hide SizeFields, SizeElements;
      ghost var x := Value();
      n := 0;
      NothingSized(x.fields);
      NoElements(x.fields[0].ms);
      for i := 0 to |dexDenoms|
        invariant n == SizeFields(x.fields[..0]) + SizeElements(x.fields[0].ms[..i])
      {
        PartSize(x, 0, i);
        var l := dexDenoms[i].Size();
        n := n + 1 + l + Sov(l);
        SizeElementsStep(x.fields[0].ms, i);
      }
      SizeFieldsStep(x.fields, 1);
      NoElements(x.fields[1].ms);
      for i := 0 to |kCoins|
        invariant n == SizeFields(x.fields[..1]) + SizeElements(x.fields[1].ms[..i])
      {
        PartSize(x, 1, i);
        var l := kCoins[i].Size();
        n := n + 1 + l + Sov(l);
        SizeElementsStep(x.fields[1].ms, i);
      }
      SizeFieldsStep(x.fields, 2);
      NoElements(x.fields[2].ms);
      for i := 0 to |cAssets|
        invariant n == SizeFields(x.fields[..2]) + SizeElements(x.fields[2].ms[..i])
      {
        PartSize(x, 2, i);
        var l := cAssets[i].Size();
        n := n + 1 + l + Sov(l);
        SizeElementsStep(x.fields[2].ms, i);
      }
      SizeFieldsStep(x.fields, 3);
      NoElements(x.fields[3].ms);
      for i := 0 to |collateralDenoms|
        invariant n == SizeFields(x.fields[..3]) + SizeElements(x.fields[3].ms[..i])
      {
        PartSize(x, 3, i);
        var l := collateralDenoms[i].Size();
        n := n + 1 + l + Sov(l);
        SizeElementsStep(x.fields[3].ms, i);
      }
      SizeFieldsStep(x.fields, 4);
      n := n + |unknownFields|;
      assert x.fields[..4] == x.fields;
    }

    /** Field 1 of `marshal`, last element first. */
    method PutDexDenoms(dAtA: array<byte>, i: nat, ghost x: Message, ghost full: Bytes) returns (j: nat)
      requires x == Value() && Codec.Size(x) < INT_LIMIT && AtField(dAtA, i, x.fields, 1, full)
      modifies dAtA
      ensures AtField(dAtA, j, x.fields, 0, full)
    {
      hide EncodeFields, EncodeElements, DexDenom.Marshalled;
      j := i;
      ghost var before := EncodeFields(x.fields[..0]);
      ElementsAhead(dAtA, j, x.fields, 1, x.fields[0].ms, full);
      for n := |dexDenoms| downto 0
        invariant Writing(dAtA, j, before + EncodeElements(1, x.fields[0].ms[..n]), full)
      {
        PartSize(x, 0, n);
        assert dexDenoms[n].Value() == x.fields[0].ms[n];
        var encoded := dexDenoms[n].Marshal([]);
        ElementNext(before, 1, x.fields[0].ms, n);
        j := PutElement(dAtA, j, 0xa, encoded, before + EncodeElements(1, x.fields[0].ms[..n]), 1, full);
      }
      ElementsWritten(dAtA, j, x.fields, 1, x.fields[0].ms, full);
    }

    /** Field 2 of `marshal`, last element first. */
    method PutKCoins(dAtA: array<byte>, i: nat, ghost x: Message, ghost full: Bytes) returns (j: nat)
      requires x == Value() && Codec.Size(x) < INT_LIMIT && AtField(dAtA, i, x.fields, 2, full)
      modifies dAtA
      ensures AtField(dAtA, j, x.fields, 1, full)
    {
      hide EncodeFields, EncodeElements, KCoin.Marshalled;
      j := i;
      ghost var before := EncodeFields(x.fields[..1]);
      ElementsAhead(dAtA, j, x.fields, 2, x.fields[1].ms, full);
      for n := |kCoins| downto 0
        invariant Writing(dAtA, j, before + EncodeElements(2, x.fields[1].ms[..n]), full)
      {
        PartSize(x, 1, n);
        assert kCoins[n].Value() == x.fields[1].ms[n];
        var encoded := kCoins[n].Marshal([]);
        ElementNext(before, 2, x.fields[1].ms, n);
        j := PutElement(dAtA, j, 0x12, encoded, before + EncodeElements(2, x.fields[1].ms[..n]), 2, full);
      }
      ElementsWritten(dAtA, j, x.fields, 2, x.fields[1].ms, full);
    }

    /** Field 3 of `marshal`, last element first. */
    method PutCAssets(dAtA: array<byte>, i: nat, ghost x: Message, ghost full: Bytes) returns (j: nat)
      requires x == Value() && Codec.Size(x) < INT_LIMIT && AtField(dAtA, i, x.fields, 3, full)
      modifies dAtA
      ensures AtField(dAtA, j, x.fields, 2, full)
    {
      hide EncodeFields, EncodeElements, CAsset.Marshalled;
      j := i;
      ghost var before := EncodeFields(x.fields[..2]);
      ElementsAhead(dAtA, j, x.fields, 3, x.fields[2].ms, full);
      for n := |cAssets| downto 0
        invariant Writing(dAtA, j, before + EncodeElements(3, x.fields[2].ms[..n]), full)
      {
        PartSize(x, 2, n);
        assert cAssets[n].Value() == x.fields[2].ms[n];
        var encoded := cAssets[n].Marshal([]);
        ElementNext(before, 3, x.fields[2].ms, n);
        j := PutElement(dAtA, j, 0x1a, encoded, before + EncodeElements(3, x.fields[2].ms[..n]), 3, full);
      }
      ElementsWritten(dAtA, j, x.fields, 3, x.fields[2].ms, full);
    }

    /** Field 4 of `marshal`, last element first. */
    method PutCollateralDenoms(dAtA: array<byte>, i: nat, ghost x: Message, ghost full: Bytes) returns (j: nat)
      requires x == Value() && Codec.Size(x) < INT_LIMIT && AtField(dAtA, i, x.fields, 4, full)
      modifies dAtA
      ensures AtField(dAtA, j, x.fields, 3, full)
    {
      hide EncodeFields, EncodeElements, CollateralDenom.Marshalled;
      j := i;
      ghost var before := EncodeFields(x.fields[..3]);
      ElementsAhead(dAtA, j, x.fields, 4, x.fields[3].ms, full);
      for n := |collateralDenoms| downto 0
        invariant Writing(dAtA, j, before + EncodeElements(4, x.fields[3].ms[..n]), full)
      {
        PartSize(x, 3, n);
        assert collateralDenoms[n].Value() == x.fields[3].ms[n];
        var encoded := collateralDenoms[n].Marshal([]);
        ElementNext(before, 4, x.fields[3].ms, n);
        j := PutElement(dAtA, j, 0x22, encoded, before + EncodeElements(4, x.fields[3].ms[..n]), 4, full);
      }
      ElementsWritten(dAtA, j, x.fields, 4, x.fields[3].ms, full);
    }

    /** What `marshal` returns: the given buffer, then the fields under their tag bytes. */
    ghost predicate Marshalled(buf: Bytes, out: Bytes)
      reads this, Parts()
    {
      out == buf + (Recs(0xa, Encodings(DexDenom.Values(dexDenoms))) +
                   Recs(0x12, Encodings(KCoin.Values(kCoins))) + Recs(0x1a, Encodings(CAsset.Values(cAssets))) +
                   Recs(0x22, Encodings(CollateralDenom.Values(collateralDenoms))) + unknownFields)
    }

    lemma EncodingIsMarshalled(buf: Bytes)
      ensures Marshalled(buf, buf + Encode(Value()))
    {
      hide EncodeField, EncodeFields, Rec, Recs, RecVarint, Encodings, Varint, Tag;
      var fs := Value().fields;
      FieldStep(fs, 1);
      ListForm(0xa, 1, fs[0].ms);
      FieldStep(fs, 2);
      ListForm(0x12, 2, fs[1].ms);
      FieldStep(fs, 3);
      ListForm(0x1a, 3, fs[2].ms);
      FieldStep(fs, 4);
      ListForm(0x22, 4, fs[3].ms);
      assert fs[..4] == fs;
    }

    method Marshal(buf: Bytes) returns (out: Bytes)
      requires Codec.Size(Value()) < INT_LIMIT
      ensures out == buf + Encode(Value())
      ensures Marshalled(buf, out)
    {
      hide EncodeFields, Encode, AtField, Codec.Size, Marshalled;
      ghost var x, fs, full := Value(), Value().fields, Encode(Value());
      var size := Size();
      var dAtA, i := Allocate(Value(), size, unknownFields);
      i := PutCollateralDenoms(dAtA, i, x, full);
      i := PutCAssets(dAtA, i, x, full);
      i := PutKCoins(dAtA, i, x, full);
      i := PutDexDenoms(dAtA, i, x, full);
      AllWritten(dAtA, i, fs, full);
      out := buf + dAtA[..];
      EncodingIsMarshalled(buf);
    }

    /** Field 1 of `unmarshal`: a new element is appended, then decoded into. */
    method AppendDexDenom(dAtA: Bytes, from: nat, postIndex: nat, discard: bool, ghost p: Pass)
      returns (err: Option<Error>)
      requires from <= postIndex <= |dAtA| < INT_LIMIT && p.s == PARAMS
      requires p.discard == discard && p.buf == dAtA && p.x == Value()
      requires p.HasRecord(Payload(0, dAtA[from..postIndex]), postIndex)
      modifies this`dexDenoms
      ensures p.Leads(err, postIndex, Value())
    {
      hide Decode, Empty, Pass.HasRecord, Pass.Outcome, Reports, DexDenom.ReadFrom;
      var e := new DexDenom();
      dexDenoms := dexDenoms + [e];
      err := e.Unmarshal(dAtA[from..postIndex], discard);
      ghost var m := e.Value();
      assert DexDenom.Values(dexDenoms) == p.x.fields[0].ms + [m];
      assert Value().fields == p.x.fields[0 := FMessages(p.x.fields[0].ms + [m])];
      NextElement(p, from, postIndex, 0, err, m, Value());
    }

    /** Field 2 of `unmarshal`: a new element is appended, then decoded into. */
    method AppendKCoin(dAtA: Bytes, from: nat, postIndex: nat, discard: bool, ghost p: Pass)
      returns (err: Option<Error>)
      requires from <= postIndex <= |dAtA| < INT_LIMIT && p.s == PARAMS
      requires p.discard == discard && p.buf == dAtA && p.x == Value()
      requires p.HasRecord(Payload(1, dAtA[from..postIndex]), postIndex)
      modifies this`kCoins
      ensures p.Leads(err, postIndex, Value())
    {
      hide Decode, Empty, Pass.HasRecord, Pass.Outcome, Reports, KCoin.ReadFrom;
      var e := new KCoin();
      kCoins := kCoins + [e];
      err := e.Unmarshal(dAtA[from..postIndex], discard);
      ghost var m := e.Value();
      assert KCoin.Values(kCoins) == p.x.fields[1].ms + [m];
      assert Value().fields == p.x.fields[1 := FMessages(p.x.fields[1].ms + [m])];
      NextElement(p, from, postIndex, 1, err, m, Value());
    }

    /** Field 3 of `unmarshal`: a new element is appended, then decoded into. */
    method AppendCAsset(dAtA: Bytes, from: nat, postIndex: nat, discard: bool, ghost p: Pass)
      returns (err: Option<Error>)
      requires from <= postIndex <= |dAtA| < INT_LIMIT && p.s == PARAMS
      requires p.discard == discard && p.buf == dAtA && p.x == Value()
      requires p.HasRecord(Payload(2, dAtA[from..postIndex]), postIndex)
      modifies this`cAssets
      ensures p.Leads(err, postIndex, Value())
    {
      hide Decode, Empty, Pass.HasRecord, Pass.Outcome, Reports, CAsset.ReadFrom;
      var e := new CAsset();
      cAssets := cAssets + [e];
      err := e.Unmarshal(dAtA[from..postIndex], discard);
      ghost var m := e.Value();
      assert CAsset.Values(cAssets) == p.x.fields[2].ms + [m];
      assert Value().fields == p.x.fields[2 := FMessages(p.x.fields[2].ms + [m])];
      NextElement(p, from, postIndex, 2, err, m, Value());
    }

    /** Field 4 of `unmarshal`: a new element is appended, then decoded into. */
    method AppendCollateralDenom(dAtA: Bytes, from: nat, postIndex: nat, discard: bool, ghost p: Pass)
      returns (err: Option<Error>)
      requires from <= postIndex <= |dAtA| < INT_LIMIT && p.s == PARAMS
      requires p.discard == discard && p.buf == dAtA && p.x == Value()
      requires p.HasRecord(Payload(3, dAtA[from..postIndex]), postIndex)
      modifies this`collateralDenoms
      ensures p.Leads(err, postIndex, Value())
    {
      hide Decode, Empty, Pass.HasRecord, Pass.Outcome, Reports, CollateralDenom.ReadFrom;
      var e := new CollateralDenom();
      collateralDenoms := collateralDenoms + [e];
      err := e.Unmarshal(dAtA[from..postIndex], discard);
      ghost var m := e.Value();
      assert CollateralDenom.Values(collateralDenoms) == p.x.fields[3].ms + [m];
      assert Value().fields == p.x.fields[3 := FMessages(p.x.fields[3].ms + [m])];
      NextElement(p, from, postIndex, 3, err, m, Value());
    }

    /** The field switch of the loop: one record, from its tag on. */
    method UnmarshalField(dAtA: Bytes, preIndex: nat, from: nat, fieldNum: nat, wireType: nat, discard: bool,
        ghost p: Pass)
      returns (err: Option<Error>, postIndex: nat)
      requires p == Pass(discard, PARAMS, dAtA, preIndex, Value())
      requires p.AfterTag(from, fieldNum, wireType)
      requires fieldNum >= 1 && preIndex < from <= |dAtA| < INT_LIMIT
      modifies this
      ensures p.Leads(err, postIndex, Value()) && (err.None? ==> preIndex < postIndex <= |dAtA|)
    {
      hide Decode, Lex, ReadHeader, Pass.AfterTag, Pass.HasRecord, Pass.Outcome, Empty, Reports;
      var iNdEx := from;
      match fieldNum {
      case 1 =>
        err, iNdEx, postIndex := ReadPayload(dAtA, iNdEx, 1, wireType, p);
        if err.None? {
          err := AppendDexDenom(dAtA, iNdEx, postIndex, discard, p);
        }
      case 2 =>
        err, iNdEx, postIndex := ReadPayload(dAtA, iNdEx, 2, wireType, p);
        if err.None? {
          err := AppendKCoin(dAtA, iNdEx, postIndex, discard, p);
        }
      case 3 =>
        err, iNdEx, postIndex := ReadPayload(dAtA, iNdEx, 3, wireType, p);
        if err.None? {
          err := AppendCAsset(dAtA, iNdEx, postIndex, discard, p);
        }
      case 4 =>
        err, iNdEx, postIndex := ReadPayload(dAtA, iNdEx, 4, wireType, p);
        if err.None? {
          err := AppendCollateralDenom(dAtA, iNdEx, postIndex, discard, p);
        }
      case _ =>
        err, postIndex := SkipRecord(dAtA, preIndex, iNdEx, fieldNum, wireType, p);
        if err.None? {
          if !discard {
            unknownFields := unknownFields + dAtA[preIndex..postIndex];
          }
          NextUnknown(p, postIndex, Value());
        }
      }
    }

    /** What a successful `unmarshal` of `b` makes of the variables that were `...0`. */
    ghost predicate ReadFrom(discard: bool, b: Bytes, dexDenoms0: seq<Message>, kCoins0: seq<Message>,
        cAssets0: seq<Message>, collateralDenoms0: seq<Message>, unknown0: Bytes)
      reads this, Parts()
    {
      && ListAfter(discard, DEX_DENOM, dexDenoms0, Contents(b, 1), DexDenom.Values(dexDenoms))
      && ListAfter(discard, K_COIN, kCoins0, Contents(b, 2), KCoin.Values(kCoins))
      && ListAfter(discard, C_ASSET, cAssets0, Contents(b, 3), CAsset.Values(cAssets))
      && ListAfter(discard, COLLATERAL_DENOM, collateralDenoms0, Contents(b, 4),
                   CollateralDenom.Values(collateralDenoms))
      && unknownFields == unknown0 + if discard then [] else Others(b, {1, 2, 3, 4})
    }

    lemma DecodedIsReadFrom(discard: bool, b: Bytes, x: Message, dexDenoms0: seq<Message>,
        kCoins0: seq<Message>, cAssets0: seq<Message>, collateralDenoms0: seq<Message>, unknown0: Bytes)
      requires Decoded(discard, PARAMS, b, x, Value()) && x.unknown == unknown0
      requires x.fields == [FMessages(dexDenoms0), FMessages(kCoins0), FMessages(cAssets0),
                            FMessages(collateralDenoms0)]
      ensures ReadFrom(discard, b, dexDenoms0, kCoins0, cAssets0, collateralDenoms0, unknown0)
    {
      hide Decode, Contents, Others, Latest, LatestVarint, LatestInt64, LatestBool, ListAfter, MessageAfter;
      hide Encode, EncodeFields, Codec.Size, SizeFields, Valid, ValidUnknown;
      var y := Value();
      assert Decoded(discard, PARAMS, b, x, y);
      hide Decoded;
      ElementsRead(discard, PARAMS, b, x, y, 0, dexDenoms0, DexDenom.Values(dexDenoms));
      ElementsRead(discard, PARAMS, b, x, y, 1, kCoins0, KCoin.Values(kCoins));
      ElementsRead(discard, PARAMS, b, x, y, 2, cAssets0, CAsset.Values(cAssets));
      ElementsRead(discard, PARAMS, b, x, y, 3, collateralDenoms0, CollateralDenom.Values(collateralDenoms));
      OthersRead(discard, PARAMS, b, x, y, {1, 2, 3, 4});
    }

    method Unmarshal(dAtA: Bytes, discard: bool) returns (err: Option<Error>)
      requires |dAtA| < INT_LIMIT
      modifies this
      ensures Reports(Decode(discard, PARAMS, dAtA, 0, old(Value())), err, Value())
      ensures err.None? ==> ReadFrom(discard, dAtA, old(DexDenom.Values(dexDenoms)), old(KCoin.Values(kCoins)),
          old(CAsset.Values(cAssets)), old(CollateralDenom.Values(collateralDenoms)), old(unknownFields))
    {
      hide Decode, Lex, ReadHeader, Pass.AfterTag, Pass.HasRecord, Pass.Outcome, ReadFrom;
      ghost var x := Value();
      ghost var goal := Decode(discard, PARAMS, dAtA, 0, Value());
      err := None;
      var iNdEx := 0;
      Start(Pass(discard, PARAMS, dAtA, 0, Value()));
      while iNdEx < |dAtA|
        invariant iNdEx <= |dAtA| && err == None
        invariant Pass(discard, PARAMS, dAtA, iNdEx, Value()).Outcome() == goal
      {
        var preIndex := iNdEx;
        ghost var p := Pass(discard, PARAMS, dAtA, preIndex, Value());
        var fieldNum, wireType;
        err, fieldNum, wireType, iNdEx := ReadTag(dAtA, iNdEx, p);
        if err.Some? { return; }
        err, iNdEx := UnmarshalField(dAtA, preIndex, iNdEx, fieldNum, wireType, discard, p);
        if err.Some? { return; }
      }
      Done(Pass(discard, PARAMS, dAtA, iNdEx, Value()));
      DecodedIsReadFrom(discard, dAtA, x, old(DexDenom.Values(dexDenoms)), old(KCoin.Values(kCoins)),
          old(CAsset.Values(cAssets)), old(CollateralDenom.Values(collateralDenoms)), old(unknownFields));
    }
  }
}
