/** The loan entry of api/kopi/mm/query.pulsar.go, whose numbers have a gap. */
module MoneyMarketLoans {
  import opened Wire
  import opened Codec
  import opened Fields
  import opened Layout
  import opened Reader
  import opened Writer

  /** Fields of query.pulsar.go:6905-7191: denom, amount_borrowed, amount_borrowed_usd, and as
      number 6 interest_rate; 4 and 5 are not in use. */
  const USER_LOAN: Schema := [KBytes, KBytes, KBytes, KUnused, KUnused, KBytes]

  class UserLoan {
    var denom: Bytes
    var amountBorrowed: Bytes
    var amountBorrowedUsd: Bytes
    var interestRate: Bytes
    var unknownFields: Bytes

    ghost function Value(): Message
      reads this
    {
      Message(
        [FBytes(denom), FBytes(amountBorrowed), FBytes(amountBorrowedUsd),
         FBytes([]), FBytes([]), FBytes(interestRate)],
        unknownFields)
    }

    constructor ()
      ensures Value() == Empty(USER_LOAN)
      ensures denom == [] && amountBorrowed == [] && amountBorrowedUsd == [] && interestRate == [] &&
              unknownFields == []
    {
      denom := [];
      amountBorrowed := [];
      amountBorrowedUsd := [];
      interestRate := [];
      unknownFields := [];
    }

    method Size() returns (n: nat)
      requires Codec.Size(Value()) < INT_LIMIT
      ensures n == Codec.Size(Value())
    {
      hide SizeFields;
      ghost var x := Value();
      n := 0;
      NothingSized(x.fields);
      n := SizeOptional(n, denom, x.fields, 1);
      n := SizeOptional(n, amountBorrowed, x.fields, 2);
      n := SizeOptional(n, amountBorrowedUsd, x.fields, 3);
      SizeFieldsStep(x.fields, 4);
      SizeFieldsStep(x.fields, 5);
      n := SizeOptional(n, interestRate, x.fields, 6);
      n := n + |unknownFields|;
      assert x.fields[..6] == x.fields;
    }

    /** What `marshal` returns: the given buffer, then the fields under their tag bytes. */
    ghost predicate Marshalled(buf: Bytes, out: Bytes)
      reads this
    {
      out == buf + (Rec(0xa, denom) + Rec(0x12, amountBorrowed) + Rec(0x1a, amountBorrowedUsd) +
                   Rec(0x32, interestRate) + unknownFields)
    }

    lemma EncodingIsMarshalled(buf: Bytes)
      ensures Marshalled(buf, buf + Encode(Value()))
    {
      hide EncodeField, EncodeFields, Rec, Recs, RecVarint, Encodings, Varint, Tag;
      var fs := Value().fields;
      FieldStep(fs, 1);
      BytesForm(0xa, 1, denom);
      FieldStep(fs, 2);
      BytesForm(0x12, 2, amountBorrowed);
      FieldStep(fs, 3);
      BytesForm(0x1a, 3, amountBorrowedUsd);
      FieldStep(fs, 4);
      GapForm(4);
      FieldStep(fs, 5);
      GapForm(5);
      FieldStep(fs, 6);
      BytesForm(0x32, 6, interestRate);
      assert fs[..6] == fs;
    }

    method Marshal(buf: Bytes) returns (out: Bytes)
      requires Codec.Size(Value()) < INT_LIMIT
      ensures out == buf + Encode(Value())
      ensures Marshalled(buf, out)
    {
      hide EncodeFields, Encode, AtField, Codec.Size, Marshalled;
      ghost var fs, full := Value().fields, Encode(Value());
      var size := Size();
      var dAtA, i := Allocate(Value(), size, unknownFields);
      i := PutBytes(dAtA, i, 0x32, interestRate, fs, 6, full);
      NoField(dAtA, i, fs, 5, full);
      NoField(dAtA, i, fs, 4, full);
      i := PutBytes(dAtA, i, 0x1a, amountBorrowedUsd, fs, 3, full);
      i := PutBytes(dAtA, i, 0x12, amountBorrowed, fs, 2, full);
      i := PutBytes(dAtA, i, 0xa, denom, fs, 1, full);
      AllWritten(dAtA, i, fs, full);
      out := buf + dAtA[..];
      EncodingIsMarshalled(buf);
    }

    /** The field switch of the loop: one record, from its tag on. */
    method UnmarshalField(dAtA: Bytes, preIndex: nat, from: nat, fieldNum: nat, wireType: nat, discard: bool,
        ghost p: Pass)
      returns (err: Option<Error>, postIndex: nat)
      requires p == Pass(discard, USER_LOAN, dAtA, preIndex, Value())
      requires p.AfterTag(from, fieldNum, wireType)
      requires fieldNum >= 1 && preIndex < from <= |dAtA| < INT_LIMIT
      modifies this
      ensures p.Leads(err, postIndex, Value()) && (err.None? ==> preIndex < postIndex <= |dAtA|)
    {
      hide Decode, Lex, ReadHeader, Pass.AfterTag, Pass.HasRecord, Pass.Outcome, Empty, Reports;
      var iNdEx := from;
      match fieldNum {
      case 1 =>
        err, iNdEx, postIndex := ReadPayload(dAtA, iNdEx, 1, wireType, p);
        if err.None? {
          denom := dAtA[iNdEx..postIndex];
          NextBytes(p, iNdEx, postIndex, 0, Value());
        }
      case 2 =>
        err, iNdEx, postIndex := ReadPayload(dAtA, iNdEx, 2, wireType, p);
        if err.None? {
          amountBorrowed := dAtA[iNdEx..postIndex];
          NextBytes(p, iNdEx, postIndex, 1, Value());
        }
      case 3 =>
        err, iNdEx, postIndex := ReadPayload(dAtA, iNdEx, 3, wireType, p);
        if err.None? {
          amountBorrowedUsd := dAtA[iNdEx..postIndex];
          NextBytes(p, iNdEx, postIndex, 2, Value());
        }
      case 6 =>
        err, iNdEx, postIndex := ReadPayload(dAtA, iNdEx, 6, wireType, p);
        if err.None? {
          interestRate := dAtA[iNdEx..postIndex];
          NextBytes(p, iNdEx, postIndex, 5, Value());
        }
      case _ =>
        err, postIndex := SkipRecord(dAtA, preIndex, iNdEx, fieldNum, wireType, p);
        if err.None? {
          if !discard {
            unknownFields := unknownFields + dAtA[preIndex..postIndex];
          }
          NextUnknown(p, postIndex, Value());
        }
      }
    }

    /** What a successful `unmarshal` of `b` makes of the variables that were `...0`. */
    ghost predicate ReadFrom(discard: bool, b: Bytes, denom0: Bytes, amountBorrowed0: Bytes,
        amountBorrowedUsd0: Bytes, interestRate0: Bytes, unknown0: Bytes)
      reads this
    {
      && denom == Latest(Contents(b, 1), denom0)
      && amountBorrowed == Latest(Contents(b, 2), amountBorrowed0)
      && amountBorrowedUsd == Latest(Contents(b, 3), amountBorrowedUsd0)
      && interestRate == Latest(Contents(b, 6), interestRate0)
      && unknownFields == unknown0 + if discard then [] else Others(b, {1, 2, 3, 6})
    }

    lemma DecodedIsReadFrom(discard: bool, b: Bytes, x: Message, denom0: Bytes, amountBorrowed0: Bytes,
        amountBorrowedUsd0: Bytes, interestRate0: Bytes, unknown0: Bytes)
      requires Decoded(discard, USER_LOAN, b, x, Value()) && x.unknown == unknown0
      requires x.fields == [FBytes(denom0), FBytes(amountBorrowed0), FBytes(amountBorrowedUsd0), FBytes([]),
                            FBytes([]), FBytes(interestRate0)]
      ensures ReadFrom(discard, b, denom0, amountBorrowed0, amountBorrowedUsd0, interestRate0, unknown0)
    {
      hide Decode, Contents, Others, Latest, LatestVarint, LatestInt64, LatestBool, ListAfter, MessageAfter;
      hide Encode, EncodeFields, Codec.Size, SizeFields, Valid, ValidUnknown;
      var y := Value();
      assert Decoded(discard, USER_LOAN, b, x, y);
      hide Decoded;
      BytesRead(discard, USER_LOAN, b, x, y, 0, denom0, denom);
      BytesRead(discard, USER_LOAN, b, x, y, 1, amountBorrowed0, amountBorrowed);
      BytesRead(discard, USER_LOAN, b, x, y, 2, amountBorrowedUsd0, amountBorrowedUsd);
      BytesRead(discard, USER_LOAN, b, x, y, 5, interestRate0, interestRate);
      OthersRead(discard, USER_LOAN, b, x, y, {1, 2, 3, 6});
    }

    method Unmarshal(dAtA: Bytes, discard: bool) returns (err: Option<Error>)
      requires |dAtA| < INT_LIMIT
      modifies this
      ensures Reports(Decode(discard, USER_LOAN, dAtA, 0, old(Value())), err, Value())
      ensures err.None? ==> ReadFrom(discard, dAtA, old(denom), old(amountBorrowed), old(amountBorrowedUsd),
          old(interestRate), old(unknownFields))
    {
      hide Decode, Lex, ReadHeader, Pass.AfterTag, Pass.HasRecord, Pass.Outcome, ReadFrom;
      ghost var x := Value();
      ghost var goal := Decode(discard, USER_LOAN, dAtA, 0, Value());
      err := None;
      var iNdEx := 0;
      Start(Pass(discard, USER_LOAN, dAtA, 0, Value()));
      while iNdEx < |dAtA|
        invariant iNdEx <= |dAtA| && err == None
        invariant Pass(discard, USER_LOAN, dAtA, iNdEx, Value()).Outcome() == goal
      {
        var preIndex := iNdEx;
        ghost var p := Pass(discard, USER_LOAN, dAtA, preIndex, Value());
        var fieldNum, wireType;
        err, fieldNum, wireType, iNdEx := ReadTag(dAtA, iNdEx, p);
        if err.Some? { return; }
        err, iNdEx := UnmarshalField(dAtA, preIndex, iNdEx, fieldNum, wireType, discard, p);
        if err.Some? { return; }
      }
      Done(Pass(discard, USER_LOAN, dAtA, iNdEx, Value()));
      DecodedIsReadFrom(discard, dAtA, x, old(denom), old(amountBorrowed), old(amountBorrowedUsd),
          old(interestRate), old(unknownFields));
    }
  }
}
