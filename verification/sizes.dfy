/** The predicted size is the encoded length, and decoding never makes a message
    larger than the bytes it was decoded from. */
module Sizes {
  import opened Wire
  import opened WireLaws
  import opened Codec

  // ---------------------------------------------------- size of the encoding

  lemma SizeOfBytes(num: nat, b: Bytes)
    ensures |EncodeBytes(num, b)| == SizeBytes(|b|)
  {
    GroupsOfVarint(|b|);
  }

  lemma {:induction false} SizeOfStrings(num: nat, bs: seq<Bytes>)
    ensures |EncodeStrings(num, bs)| == SizeStrings(bs)
  {
    if bs != [] {
      SizeOfStrings(num, bs[..|bs| - 1]);
      SizeOfBytes(num, bs[|bs| - 1]);
    }
  }

  lemma {:induction false} SizeOfElements(num: nat, ms: seq<Message>)
    ensures |EncodeElements(num, ms)| == SizeElements(ms)
    decreases ms
  {
    hide EncodeBytes, SizeBytes;
    if ms != [] {
      SizeOfElements(num, ms[..|ms| - 1]);
      SizeIsEncodedLength(ms[|ms| - 1]);
      SizeOfBytes(num, Encode(ms[|ms| - 1]));
    }
  }

  lemma {:induction false} SizeOfField(num: nat, f: Field)
    ensures |EncodeField(num, f)| == SizeField(f)
    decreases f
  {
    match f
    case FBytes(b) => SizeOfBytes(num, b);
    case FRepeated(bs) => SizeOfStrings(num, bs);
    case FUint64(v) => GroupsOfVarint(v);
    case FMessage(m) =>
      if m.Some? {
        SizeIsEncodedLength(m.value);
        SizeOfBytes(num, Encode(m.value));
      }
    case FMessages(ms) => SizeOfElements(num, ms);
  }

  lemma {:induction false} SizeOfFields(fs: seq<Field>)
    ensures |EncodeFields(fs)| == SizeFields(fs)
    decreases fs
  {
    hide EncodeField, SizeField;
    if fs != [] {
      SizeOfFields(fs[..|fs| - 1]);
      SizeOfField(|fs|, fs[|fs| - 1]);
    }
  }

  /** `size` predicts the exact number of bytes that `marshal` writes. */
  lemma {:induction false} SizeIsEncodedLength(x: Message)
    ensures |Encode(x)| == Size(x)
    decreases x
  {
    SizeOfFields(x.fields);
  }

  // ------------------------------------------------------------- no growth

  lemma {:induction false} SizeFieldsSet(fs: seq<Field>, k: nat, f: Field)
    requires k < |fs|
    ensures SizeFields(fs[k := f]) == SizeFields(fs) - SizeField(fs[k]) + SizeField(f)
    decreases |fs|
  {
    hide SizeField;
    var n := |fs| - 1;
    if k == n {
      assert fs[k := f][..n] == fs[..n];
    } else {
      assert fs[k := f][..n] == fs[..n][k := f];
      SizeFieldsSet(fs[..n], k, f);
    }
  }

  lemma {:induction false} SizeFieldsOfDefaults(fs: seq<Field>)
    requires forall k :: 0 <= k < |fs| ==> SizeField(fs[k]) == 0
    ensures SizeFields(fs) == 0
    decreases |fs|
  {
    hide SizeField;
    if fs != [] {
      SizeFieldsOfDefaults(fs[..|fs| - 1]);
    }
  }

  lemma SizeOfEmpty(s: Schema)
    ensures Size(Empty(s)) == 0
  {
    SizeFieldsOfDefaults(Empty(s).fields);
  }

  lemma {:induction false} ElementSize(ms: seq<Message>, i: nat)
    requires i < |ms|
    ensures Size(ms[i]) <= SizeElements(ms)
    decreases |ms|
  {
    hide Size;
    if i < |ms| - 1 {
      ElementSize(ms[..|ms| - 1], i);
    }
  }

  lemma {:induction false} FieldSize(fs: seq<Field>, k: nat)
    requires k < |fs|
    ensures SizeField(fs[k]) <= SizeFields(fs)
    decreases |fs|
  {
    hide SizeField;
    if k < |fs| - 1 {
      FieldSize(fs[..|fs| - 1], k);
    }
  }

  /** A part of a message that fits an int fits one too. */
  lemma PartSize(x: Message, k: nat, i: nat)
    requires k < |x.fields|
    ensures x.fields[k].FMessages? && i < |x.fields[k].ms| ==> Size(x.fields[k].ms[i]) <= Size(x)
    ensures x.fields[k].FMessage? && x.fields[k].m.Some? ==> Size(x.fields[k].m.value) <= Size(x)
  {
    hide SizeFields, SizeElements;
    FieldSize(x.fields, k);
    if x.fields[k].FMessages? && i < |x.fields[k].ms| {
      ElementSize(x.fields[k].ms, i);
    }
  }

  /** The shortest wire form of a record. */
  function Weight(rec: Record): nat {
    match rec
    case Payload(_, b) => SizeBytes(|b|)
    case Scalar(_, v) => 1 + Sov(v)
    case Unknown(raw) => |raw|
  }

  /** A record on the wire is never shorter than its minimal form. */
  lemma LexWeight(s: Schema, b: Bytes, at: nat)
    requires Lex(s, b, at).Ok?
    ensures Weight(Lex(s, b, at).value.rec) <= Lex(s, b, at).value.n
  {
    hide ReadVarint, Sov;
    var l := Lex(s, b, at).value;
    if !l.rec.Unknown? {
      VarintNotLonger(b[ReadHeader(b).value.n..]);
    }
  }

  lemma SizeOfStringsGrown(bs: seq<Bytes>, b: Bytes)
    ensures SizeStrings(bs + [b]) == SizeStrings(bs) + SizeBytes(|b|)
  {
    hide SizeBytes;
    assert (bs + [b])[..|bs|] == bs;
  }

  lemma SizeOfElementsGrown(ms: seq<Message>, m: Message)
    ensures SizeElements(ms + [m]) == SizeElements(ms) + SizeBytes(Size(m))
  {
    hide SizeBytes, Size;
    assert (ms + [m])[..|ms|] == ms;
  }

  /** One length prefix over `v + w` bytes costs no more than two prefixes. */
  lemma PrefixShared(v: nat, w: nat, n: nat)
    requires n <= v + w
    ensures SizeBytes(n) <= SizeBytes(v) + SizeBytes(w)
    ensures v == 0 ==> SizeBytes(n) <= SizeBytes(w)
  {
    SovMonotone(n, v + w);
    SovSubadditive(v, w);
  }

  lemma {:induction false} UpdateNoGrowth(discard: bool, kind: Kind, rec: Record, f: Field)
    requires !rec.Unknown? && Update(discard, kind, rec, f).Ok?
    ensures SizeField(Update(discard, kind, rec, f).value) <= SizeField(f) + Weight(rec)
    decreases if rec.Payload? then |rec.bytes| else 0, 1
  {
    hide Decode, Size, Sov, SizeBytes, SizeStrings, SizeElements;
    if rec.Payload? {
      match kind
      case KRepeated =>
        SizeOfStringsGrown(Strings(f), rec.bytes);
        SizeOfStringsNone();
      case KMessage(t) =>
        var m0 := SubMessage(t, f);
        DecodeNoGrowth(discard, t, rec.bytes, 0, m0);
        SizeOfEmpty(t);
        PrefixShared(Size(m0), |rec.bytes|, Size(Decode(discard, t, rec.bytes, 0, m0).value));
      case KMessages(t) =>
        DecodeNoGrowth(discard, t, rec.bytes, 0, Empty(t));
        SizeOfEmpty(t);
        var m := Decode(discard, t, rec.bytes, 0, Empty(t)).value;
        PrefixShared(0, |rec.bytes|, Size(m));
        SizeOfElementsGrown(Elements(f), m);
        SizeOfElementsNone();
      case _ =>
    } else {
      SovMonotone(Stored(kind, rec.v), rec.v);
    }
  }

  lemma SizeOfStringsNone()
    ensures SizeStrings([]) == 0
  {
  }

  lemma SizeOfElementsNone()
    ensures SizeElements([]) == 0
  {
  }

  lemma {:induction false} ApplyNoGrowth(discard: bool, s: Schema, rec: Record, x: Message)
    requires Apply(discard, s, rec, x).Ok?
    ensures Size(Apply(discard, s, rec, x).value) <= Size(x) + Weight(rec)
    decreases if rec.Payload? then |rec.bytes| else 0, 2
  {
    hide Update, SizeField, SizeFields;
    if !rec.Unknown? && rec.k < |s| {
      var f := x.Get(rec.k);
      UpdateNoGrowth(discard, s[rec.k], rec, f);
      if rec.k < |x.fields| {
        SizeFieldsSet(x.fields, rec.k, Update(discard, s[rec.k], rec, f).value);
      }
    }
  }

  /** Decoding `b` into a message adds at most |b| to its encoded size: overlong
      varints shrink, overwritten scalars vanish, and merged sub-messages share a prefix. */
  lemma {:induction false} DecodeNoGrowth(discard: bool, s: Schema, b: Bytes, at: nat, x: Message)
    requires Decode(discard, s, b, at, x).Ok?
    ensures Size(Decode(discard, s, b, at, x).value) <= Size(x) + |b|
    decreases |b|, 0
  {
    hide Lex, Apply, Size, Weight;
    if b != [] {
      var l := Lex(s, b, at).value;
      LexWeight(s, b, at);
      ApplyNoGrowth(discard, s, l.rec, x);
      DecodeNoGrowth(discard, s, b[l.n..], at + l.n, Apply(discard, s, l.rec, x).value);
    }
  }
}
