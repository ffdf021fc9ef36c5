/** Decoding inverts encoding: the encoding of a message decodes to that message,
    decoding it into another message merges the two, and decoding then encoding is a
    normal form. */
module RoundTrip {
  import opened Wire
  import opened WireLaws
  import opened Codec
  import opened Lexing
  import opened Decoding
  import opened Sizes

  // ---------------------------------------------------------------- validity

  lemma EmptyIsValid(s: Schema)
    ensures Valid(s, Empty(s))
  {
  }

  lemma {:induction false} ValidUnknownConcat(s: Schema, u: Bytes, w: Bytes)
    requires ValidUnknown(s, u) && ValidUnknown(s, w)
    ensures ValidUnknown(s, u + w)
    decreases |u|
  {
    hide Lex;
    if u == [] {
      assert u + w == w;
    } else {
      var n := Lex(s, u, 0).value.n;
      assert (u + w)[..n] == u[..n];
      LexLocal(s, u, 0, u + w, 0);
      assert (u + w)[n..] == u[n..] + w;
      ValidUnknownConcat(s, u[n..], w);
    }
  }

  lemma UnknownRecordIsValid(s: Schema, b: Bytes, at: nat)
    requires Lex(s, b, at).Ok? && Lex(s, b, at).value.rec.Unknown?
    ensures ValidUnknown(s, Lex(s, b, at).value.rec.raw)
  {
    hide Lex;
    var l := Lex(s, b, at).value;
    LexLocal(s, b, at, b[..l.n], 0);
    assert b[..l.n][l.n..] == [];
  }

  /** A record that schema `s` can produce. */
  ghost predicate Fits(s: Schema, rec: Record) {
    match rec
    case Unknown(raw) => ValidUnknown(s, raw)
    case Scalar(k, v) => k < |s| && s[k].IsScalar() && v < UINT64
    case Payload(k, _) => Knows(s, k + 1) && !s[k].IsScalar()
  }

  lemma LexFits(s: Schema, b: Bytes, at: nat)
    requires Lex(s, b, at).Ok?
    ensures Fits(s, Lex(s, b, at).value.rec)
  {
    if Lex(s, b, at).value.rec.Unknown? {
      UnknownRecordIsValid(s, b, at);
    }
  }

  /** The parser invariant: decoding keeps a message valid at every level, so unknown
      fields are always whole records that the schema does not know. */
  lemma {:induction false} DecodeKeepsValid(discard: bool, s: Schema, b: Bytes, at: nat, x: Message)
    requires Valid(s, x) && Decode(discard, s, b, at, x).Ok?
    ensures Valid(s, Decode(discard, s, b, at, x).value)
    decreases |b|, 0
  {
    hide Lex, Apply, Valid, Fits;
    if b != [] {
      var l := Lex(s, b, at).value;
      LexFits(s, b, at);
      ApplyKeepsValid(discard, s, l.rec, x);
      DecodeKeepsValid(discard, s, b[l.n..], at + l.n, Apply(discard, s, l.rec, x).value);
    }
  }

  lemma {:induction false} ApplyKeepsValid(discard: bool, s: Schema, rec: Record, x: Message)
    requires Valid(s, x) && Fits(s, rec) && Apply(discard, s, rec, x).Ok?
    ensures Valid(s, Apply(discard, s, rec, x).value)
    decreases if rec.Payload? then |rec.bytes| else 0, 2
  {
    hide Update, ValidField, ValidUnknown;
    if rec.Unknown? {
      ValidUnknownConcat(s, x.unknown, rec.raw);
    } else {
      UpdateKeepsValid(discard, s[rec.k], rec, x.Get(rec.k));
    }
  }

  lemma {:induction false} UpdateKeepsValid(discard: bool, kind: Kind, rec: Record, f: Field)
    requires !rec.Unknown? && rec.Scalar? == kind.IsScalar() && (rec.Scalar? ==> rec.v < UINT64)
    requires ValidField(kind, f) && Update(discard, kind, rec, f).Ok?
    ensures ValidField(kind, Update(discard, kind, rec, f).value)
    decreases if rec.Payload? then |rec.bytes| else 0, 1
  {
    hide Decode, Valid;
    if rec.Payload? {
      match kind
      case KMessage(t) =>
        EmptyIsValid(t);
        DecodeKeepsValid(discard, t, rec.bytes, 0, SubMessage(t, f));
      case KMessages(t) =>
        EmptyIsValid(t);
        DecodeKeepsValid(discard, t, rec.bytes, 0, Empty(t));
      case _ =>
    }
  }

  // ------------------------------------------------------------------ merging

  /** Field `f` after a message that holds `g` is decoded on top of it: the last scalar
      wins unless it is the default, lists append, sub-messages merge. */
  function MergeField(f: Field, g: Field): Field
    decreases g
  {
    match g
    case FBytes(b) => if b == [] then f else g
    case FRepeated(bs) => FRepeated(Strings(f) + bs)
    case FUint64(v) => if v == 0 then f else g
    case FMessage(None) => f
    case FMessage(Some(m)) =>
      if f.FMessage? && f.m.Some? then FMessage(Some(Merge(f.m.value, m))) else g
    case FMessages(ms) => FMessages(Elements(f) + ms)
  }

  function MergeFields(fs: seq<Field>, gs: seq<Field>): (r: seq<Field>)
    ensures |r| == |fs|
    decreases gs
  {
    seq(|fs|, k requires 0 <= k < |fs| => if k < |gs| then MergeField(fs[k], gs[k]) else fs[k])
  }

  function Merge(x: Message, y: Message): Message
    decreases y
  {
    Message(MergeFields(x.fields, y.fields), x.unknown + y.unknown)
  }

  /** Merging into an empty message copies. */
  lemma MergeIntoEmpty(s: Schema, y: Message)
    requires Valid(s, y)
    ensures Merge(Empty(s), y) == y
  {
    forall k | 0 <= k < |s|
      ensures MergeField(Default(s[k]), y.fields[k]) == y.fields[k]
    {
      assert ValidField(s[k], y.fields[k]);
    }
    assert MergeFields(Empty(s).fields, y.fields) == y.fields;
  }

  // --------------------------------------------------- decoding what was encoded

  lemma OneRecord(discard: bool, s: Schema, r: Bytes, at: nat, x: Message, rec: Record)
    requires Lex(s, r, at) == Ok(Lexeme(rec, |r|))
    ensures Decode(discard, s, r, at, x) == Apply(discard, s, rec, x)
  {
    hide Lex, Apply;
    assert r[|r|..] == [];
  }

  lemma SmallTag(num: nat, wireType: nat)
    requires num <= 15 && wireType < 8
    ensures Varint(8 * num + wireType) == [Tag(num, wireType)] && Sov(8 * num + wireType) == 1
  {
  }

  lemma HeaderOfTag(num: nat, wireType: nat, rest: Bytes)
    requires 1 <= num <= 15 && wireType < 8 && wireType != 4
    ensures ReadHeader([Tag(num, wireType)] + rest) == Ok(Header(num, wireType, 1))
  {
    hide ReadVarint, ToInt32;
    TagParts(num, wireType);
    SmallTag(num, wireType);
    VarintRoundTrip(8 * num + wireType, rest);
  }

  lemma LexBytes(s: Schema, num: nat, b: Bytes, at: nat)
    requires Knows(s, num) && |s| <= 15 && !s[num - 1].IsScalar() && |b| < INT_LIMIT
    ensures Lex(s, EncodeBytes(num, b), at) == Ok(Lexeme(Payload(num - 1, b), |EncodeBytes(num, b)|))
  {
    hide ReadVarint, ReadHeader, Tag;
    var r := EncodeBytes(num, b);
    assert r == [Tag(num, 2)] + (Varint(|b|) + b);
    HeaderOfTag(num, 2, Varint(|b|) + b);
    assert r[1..] == Varint(|b|) + b;
    VarintRoundTrip(|b|, b);
    GroupsOfVarint(|b|);
    assert r[1 + Sov(|b|)..|r|] == b;
  }

  lemma LexUint64(s: Schema, num: nat, v: nat, at: nat)
    requires 1 <= num <= |s| <= 15 && s[num - 1].IsScalar() && v < UINT64
    ensures var r := [Tag(num, 0)] + Varint(v);
            Lex(s, r, at) == Ok(Lexeme(Scalar(num - 1, v), |r|))
  {
    hide ReadVarint, ReadHeader, Tag;
    var r := [Tag(num, 0)] + Varint(v);
    HeaderOfTag(num, 0, Varint(v));
    assert r[1..] == Varint(v) + [];
    VarintRoundTrip(v, []);
    GroupsOfVarint(v);
  }

  /** Unknown records decode to themselves. */
  lemma {:induction false} DecodeUnknown(discard: bool, s: Schema, u: Bytes, at: nat, x: Message)
    requires ValidUnknown(s, u)
    ensures Decode(discard, s, u, at, x) == Ok(if discard then x else x.AddUnknown(u))
    decreases |u|
  {
    hide Lex;
    if u != [] {
      LexLocal(s, u, 0, u, at);
      var l := Lex(s, u, 0).value;
      var y := if discard then x else x.AddUnknown(l.rec.raw);
      DecodeUnknown(discard, s, u[l.n..], at + l.n, y);
      assert u[..l.n] + u[l.n..] == u;
      assert (x.unknown + u[..l.n]) + u[l.n..] == x.unknown + u;
    } else {
      assert x.unknown + u == x.unknown;
    }
  }

  lemma {:induction false} DecodeStrings(s: Schema, num: nat, bs: seq<Bytes>, at: nat, x: Message)
    requires 1 <= num <= |s| <= 15 && s[num - 1].KRepeated?
    requires |x.fields| == |s| && x.fields[num - 1].FRepeated?
    requires SizeStrings(bs) < INT_LIMIT
    ensures Decode(false, s, EncodeStrings(num, bs), at, x)
         == Ok(x.Set(num - 1, FRepeated(Strings(x.fields[num - 1]) + bs)))
  {
    hide Decode, Lex, EncodeBytes;
    if bs == [] {
      assert Strings(x.fields[num - 1]) + bs == Strings(x.fields[num - 1]);
      SetTwice(x, num - 1, x.fields[num - 1], x.fields[num - 1]);
      DecodeNothing(s, at, x);
    } else {
      var init, last := bs[..|bs| - 1], bs[|bs| - 1];
      DecodeStrings(s, num, init, at, x);
      var y := x.Set(num - 1, FRepeated(Strings(x.fields[num - 1]) + init));
      DecodeConcat(false, s, EncodeStrings(num, init), EncodeBytes(num, last), at, x);
      LexBytes(s, num, last, at + |EncodeStrings(num, init)|);
      OneRecord(false, s, EncodeBytes(num, last), at + |EncodeStrings(num, init)|, y, Payload(num - 1, last));
      assert Strings(x.fields[num - 1]) + bs == Strings(x.fields[num - 1]) + init + [last];
      SetTwice(x, num - 1, y.fields[num - 1], FRepeated(Strings(x.fields[num - 1]) + bs));
    }
  }

  lemma SetTwice(x: Message, k: nat, f: Field, g: Field)
    ensures x.Set(k, f).Set(k, g) == x.Set(k, g)
    ensures k < |x.fields| ==> x.Set(k, x.fields[k]) == x
  {
    if k < |x.fields| {
      assert x.fields[k := f][k := g] == x.fields[k := g];
    }
  }

  lemma DecodeNothing(s: Schema, at: nat, x: Message)
    ensures Decode(false, s, [], at, x) == Ok(x)
  {
  }

  lemma {:induction false} DecodeElements(s: Schema, num: nat, ms: seq<Message>, at: nat, x: Message)
    requires 1 <= num <= |s| <= 15 && s[num - 1].KMessages? && Narrow(s[num - 1].elem)
    requires |x.fields| == |s| && x.fields[num - 1].FMessages?
    requires forall i :: 0 <= i < |ms| ==> Valid(s[num - 1].elem, ms[i])
    requires SizeElements(ms) < INT_LIMIT
    ensures Decode(false, s, EncodeElements(num, ms), at, x)
         == Ok(x.Set(num - 1, FMessages(Elements(x.fields[num - 1]) + ms)))
    decreases ms
  {
    hide Decode, Lex, EncodeBytes, Valid, Narrow, Size, Encode;
    if ms == [] {
      assert Elements(x.fields[num - 1]) + ms == Elements(x.fields[num - 1]);
      SetTwice(x, num - 1, x.fields[num - 1], x.fields[num - 1]);
      DecodeNothing(s, at, x);
    } else {
      var init, last := ms[..|ms| - 1], ms[|ms| - 1];
      var t, e := s[num - 1].elem, Encode(last);
      DecodeElements(s, num, init, at, x);
      var y := x.Set(num - 1, FMessages(Elements(x.fields[num - 1]) + init));
      DecodeConcat(false, s, EncodeElements(num, init), EncodeBytes(num, e), at, x);
      SizeIsEncodedLength(last);
      LexBytes(s, num, e, at + |EncodeElements(num, init)|);
      OneRecord(false, s, EncodeBytes(num, e), at + |EncodeElements(num, init)|, y, Payload(num - 1, e));
      EncodedDecodes(t, last);
      assert Elements(x.fields[num - 1]) + ms == Elements(x.fields[num - 1]) + init + [last];
      SetTwice(x, num - 1, y.fields[num - 1], FMessages(Elements(x.fields[num - 1]) + ms));
    }
  }

  lemma {:induction false} DecodeField(s: Schema, num: nat, g: Field, at: nat, x: Message)
    requires 1 <= num <= |s| <= 15 && NarrowKind(s[num - 1])
    requires |x.fields| == |s| && ValidField(s[num - 1], x.fields[num - 1]) && ValidField(s[num - 1], g)
    requires SizeField(g) < INT_LIMIT
    ensures Decode(false, s, EncodeField(num, g), at, x)
         == Ok(x.Set(num - 1, MergeField(x.fields[num - 1], g)))
    decreases g
  {
    hide Decode, Lex, EncodeBytes, Valid, Narrow, Size, Encode, Tag, Merge;
    DecodeNothing(s, at, x);
    SetTwice(x, num - 1, g, g);
    match g
    case FBytes(b) =>
      if b != [] {
        LexBytes(s, num, b, at);
        OneRecord(false, s, EncodeBytes(num, b), at, x, Payload(num - 1, b));
      }
    case FRepeated(bs) => DecodeStrings(s, num, bs, at, x);
    case FUint64(v) =>
      if v != 0 {
        LexUint64(s, num, v, at);
        OneRecord(false, s, [Tag(num, 0)] + Varint(v), at, x, Scalar(num - 1, v));
      }
    case FMessage(None) =>
    case FMessage(Some(m)) =>
      var t, e := s[num - 1].sub, Encode(m);
      var m0 := SubMessage(t, x.fields[num - 1]);
      SizeIsEncodedLength(m);
      LexBytes(s, num, e, at);
      OneRecord(false, s, EncodeBytes(num, e), at, x, Payload(num - 1, e));
      EmptyIsValid(t);
      EncodedMerges(t, m, 0, m0);
      MergeIntoEmpty(t, m);
    case FMessages(ms) => DecodeElements(s, num, ms, at, x);
  }

  lemma {:induction false} DecodeFields(s: Schema, gs: seq<Field>, at: nat, x: Message)
    requires Narrow(s) && |gs| <= |s| && |x.fields| == |s|
    requires forall k :: 0 <= k < |s| ==> ValidField(s[k], x.fields[k])
    requires forall k :: 0 <= k < |gs| ==> ValidField(s[k], gs[k])
    requires SizeFields(gs) < INT_LIMIT
    ensures Decode(false, s, EncodeFields(gs), at, x) == Ok(x.(fields := MergeFields(x.fields, gs)))
    decreases gs
  {
    hide Decode, EncodeField, ValidField, MergeField, SizeField;
    if gs == [] {
      DecodeNothing(s, at, x);
      assert MergeFields(x.fields, gs) == x.fields;
    } else {
      var n := |gs| - 1;
      DecodeFields(s, gs[..n], at, x);
      var y := x.(fields := MergeFields(x.fields, gs[..n]));
      var from := at + |EncodeFields(gs[..n])|;
      DecodeConcat(false, s, EncodeFields(gs[..n]), EncodeField(n + 1, gs[n]), at, x);
      DecodeField(s, n + 1, gs[n], from, y);
      assert y.fields[n := MergeField(y.fields[n], gs[n])] == MergeFields(x.fields, gs);
    }
  }

  /** Decoding the encoding of `y` into `x` merges `y` into `x`. */
  lemma {:induction false} EncodedMerges(s: Schema, y: Message, at: nat, x: Message)
    requires Narrow(s) && Valid(s, x) && Valid(s, y) && Size(y) < INT_LIMIT
    ensures Decode(false, s, Encode(y), at, x) == Ok(Merge(x, y))
    decreases y, 0
  {
    hide Decode, EncodeFields, SizeFields, ValidField, MergeFields;
    DecodeFields(s, y.fields, at, x);
    var z := x.(fields := MergeFields(x.fields, y.fields));
    DecodeConcat(false, s, EncodeFields(y.fields), y.unknown, at, x);
    DecodeUnknown(false, s, y.unknown, at + |EncodeFields(y.fields)|, z);
  }

  /** The round trip: every valid message decodes from its encoding. */
  lemma {:induction false} EncodedDecodes(s: Schema, y: Message)
    requires Narrow(s) && Valid(s, y) && Size(y) < INT_LIMIT
    ensures Decode(false, s, Encode(y), 0, Empty(s)) == Ok(y)
    decreases y, 1
  {
    hide Decode, Valid;
    EmptyIsValid(s);
    EncodedMerges(s, y, 0, Empty(s));
    MergeIntoEmpty(s, y);
  }

  /** Two encodings in one buffer decode to the merged message. */
  lemma EncodingsConcatenate(s: Schema, x: Message, y: Message)
    requires Narrow(s) && Valid(s, x) && Valid(s, y) && Size(x) < INT_LIMIT && Size(y) < INT_LIMIT
    ensures Decode(false, s, Encode(x) + Encode(y), 0, Empty(s)) == Ok(Merge(x, y))
  {
    hide Decode, Valid, Encode, Merge, Size;
    EncodedDecodes(s, x);
    DecodeConcat(false, s, Encode(x), Encode(y), 0, Empty(s));
    EncodedMerges(s, y, |Encode(x)|, x);
  }

  /** Different messages have different encodings. */
  lemma EncodeInjective(s: Schema, x: Message, y: Message)
    requires Narrow(s) && Valid(s, x) && Valid(s, y) && Size(x) < INT_LIMIT
    requires Encode(x) == Encode(y)
    ensures x == y
  {
    hide Decode, Valid, Encode, Size;
    SizeIsEncodedLength(x);
    SizeIsEncodedLength(y);
    EncodedDecodes(s, x);
    EncodedDecodes(s, y);
  }

  /** Normalisation: whatever the decoder accepts re-encodes to an input that decodes to
      the same message and is no longer than the original. */
  lemma NormalForm(discard: bool, s: Schema, b: Bytes)
    requires Narrow(s) && |b| < INT_LIMIT
    requires Decode(discard, s, b, 0, Empty(s)).Ok?
    ensures var y := Decode(discard, s, b, 0, Empty(s)).value;
            Decode(false, s, Encode(y), 0, Empty(s)) == Ok(y) && |Encode(y)| <= |b|
  {
    hide Decode, Valid, Encode, Size;
    var y := Decode(discard, s, b, 0, Empty(s)).value;
    EmptyIsValid(s);
    DecodeKeepsValid(discard, s, b, 0, Empty(s));
    DecodeNoGrowth(discard, s, b, 0, Empty(s));
    SizeOfEmpty(s);
    SizeIsEncodedLength(y);
    EncodedDecodes(s, y);
  }
}
