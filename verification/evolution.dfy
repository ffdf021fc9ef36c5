/** Readers that know fewer fields at every level of a message: what they pass on still
    decodes to the full message. */
module Evolution {
  import opened Wire
  import opened Codec
  import opened Lexing
  import opened Decoding
  import opened Sizes
  import opened RoundTrip
  import opened Compatibility

  /** Schema `t` is `s` with fields left out, at every level. */
  predicate Older(t: Schema, s: Schema)
    decreases s
  {
    |t| <= |s| && forall k :: 0 <= k < |t| ==> OlderKind(t[k], s[k])
  }

  predicate OlderKind(t: Kind, s: Kind)
    decreases s
  {
    match t
    case KUnused => true
    case KMessage(u) => s.KMessage? && Older(u, s.sub)
    case KMessages(u) => s.KMessages? && Older(u, s.elem)
    case _ => t == s
  }

  /** What `t` has of message `y` of schema `s`, every other field at its default. */
  function KnownPart(s: Schema, t: Schema, y: Message): (z: Message)
    requires |s| == |y.fields|
    ensures |z.fields| == |s|
  {
    Message(seq(|s|, k requires 0 <= k < |s| => if Knows(t, k + 1) then y.fields[k] else Default(s[k])), [])
  }

  /** Message `x` of an older reader stands for the full message `y`: the fields it has
      stand for theirs, and the records it keeps hold the rest. */
  ghost predicate StandsFor(s: Schema, t: Schema, x: Message, y: Message)
    decreases x
  {
    && |x.fields| == |t| <= |s| == |y.fields|
    && ValidUnknown(t, x.unknown)
    && (forall k :: 0 <= k < |t| ==> FieldStandsFor(s[k], t[k], x.fields[k], y.fields[k]))
    && Decode(false, s, x.unknown, 0, KnownPart(s, t, y)) == Ok(y)
  }

  ghost predicate FieldStandsFor(s: Kind, t: Kind, f: Field, g: Field)
    decreases f
  {
    match t
    case KUnused => f == FBytes([])
    case KMessage(u) =>
      && s.KMessage? && f.FMessage? && g.FMessage? && f.m.Some? == g.m.Some?
      && (f.m.Some? ==> StandsFor(s.sub, u, f.m.value, g.m.value))
    case KMessages(u) =>
      && s.KMessages? && f.FMessages? && g.FMessages? && |f.ms| == |g.ms|
      && forall i :: 0 <= i < |f.ms| ==> StandsFor(s.elem, u, f.ms[i], g.ms[i])
    case _ => s == t && f == g && ValidField(s, g)
  }

  lemma OlderIsAligned(s: Schema, t: Schema)
    requires Older(t, s)
    ensures Aligned(t, s)
  {
    forall k | 0 <= k < |t|
      ensures t[k].KUnused? || (!s[k].KUnused? && t[k].IsScalar() == s[k].IsScalar())
    {
      assert OlderKind(t[k], s[k]);
    }
  }

  lemma EmptyStandsFor(s: Schema, t: Schema)
    requires Older(t, s)
    ensures StandsFor(s, t, Empty(t), Empty(s))
  {
    var x, y := Empty(t), Empty(s);
    forall k | 0 <= k < |t|
      ensures FieldStandsFor(s[k], t[k], x.fields[k], y.fields[k])
    {
      assert OlderKind(t[k], s[k]);
    }
    assert KnownPart(s, t, y) == y;
  }

  /** A record that the older reader does not know is kept, and so still holds its part. */
  lemma KeepRecord(s: Schema, t: Schema, b: Bytes, at: nat, x: Message, y: Message)
    requires Aligned(t, s) && StandsFor(s, t, x, y)
    requires Lex(s, b, at).Ok? && Lex(t, b, at).Ok? && Lex(t, b, at).value.rec.Unknown?
    requires Apply(false, s, Lex(s, b, at).value.rec, y).Ok?
    ensures Lex(t, b, at).value.n == Lex(s, b, at).value.n
    ensures StandsFor(s, t, x.AddUnknown(Lex(t, b, at).value.rec.raw), Apply(false, s, Lex(s, b, at).value.rec, y).value)
  {
    hide Lex, Decode, FieldStandsFor, Update;
    LexAligned(s, t, b, at);
    var l := Lex(s, b, at).value;
    var raw, y1 := b[..l.n], Apply(false, s, l.rec, y).value;
    UnknownRecordIsValid(t, b, at);
    ValidUnknownConcat(t, x.unknown, raw);
    assert KnownPart(s, t, y1) == KnownPart(s, t, y);
    LexLocal(s, b, at, raw, |x.unknown|);
    OneRecord(false, s, raw, |x.unknown|, y, l.rec);
    DecodeConcat(false, s, x.unknown, raw, 0, KnownPart(s, t, y));
    forall k | 0 <= k < |t|
      ensures FieldStandsFor(s[k], t[k], x.fields[k], y1.fields[k])
    {
      UnusedStandsFor(s[k], t[k], x.fields[k], y.fields[k], y1.fields[k]);
    }
  }

  lemma UnusedStandsFor(s: Kind, t: Kind, f: Field, g: Field, h: Field)
    requires FieldStandsFor(s, t, f, g) && (t.KUnused? || g == h)
    ensures FieldStandsFor(s, t, f, h)
  {
  }

  /** Records that the older reader keeps are for no field it has. */
  lemma {:induction false} NoRecordsFor(s: Schema, t: Schema, u: Bytes, k: nat)
    requires Aligned(t, s) && ValidUnknown(t, u) && Split(s, u).Some? && Knows(t, k + 1)
    ensures ForField(Split(s, u).value, k) == []
    decreases |u|
  {
    hide Lex;
    if u != [] {
      LexAligned(s, t, u, 0);
      var l := Lex(s, u, 0).value;
      NoRecordsFor(s, t, u[l.n..], k);
      assert Split(s, u).value[1..] == Split(s, u[l.n..]).value;
    }
  }

  /** A field without records comes out as it went in. */
  lemma UntouchedField(s: Schema, u: Bytes, z: Message, y: Message, k: nat, g: Field)
    requires |z.fields| == |s| && k < |s| && Decode(false, s, u, 0, z) == Ok(y)
    requires Split(s, u).Some? ==> ForField(Split(s, u).value, k) == []
    ensures Decode(false, s, u, 0, z.Set(k, g)) == Ok(y.Set(k, g))
  {
    hide Decode, Apply, ApplyAll, Split, Replay, UnknownBytes;
    var w := z.Set(k, g);
    DecodeIsFold(false, s, u, 0, z);
    DecodeIsFold(false, s, u, 0, w);
    var rs := Split(s, u).value;
    ApplyAllFieldByField(false, s, rs, z);
    ApplyAllFieldByField(false, s, rs, w);
    ReplayNothing(false, s[k], g);
    var r := ApplyAll(false, s, rs, w);
    assert r.Ok?;
    assert r.value.fields == y.fields[k := g];
  }

  /** One record for a field that the older reader has. */
  lemma {:induction false} ApplyOlder(s: Schema, t: Schema, rec: Record, x: Message, y: Message)
    requires Older(t, s) && StandsFor(s, t, x, y)
    requires !rec.Unknown? && Knows(t, rec.k + 1) && Fits(s, rec)
    requires rec.Payload? ==> |rec.bytes| < INT_LIMIT
    requires Apply(false, s, rec, y).Ok?
    ensures Apply(false, t, rec, x).Ok?
    ensures StandsFor(s, t, Apply(false, t, rec, x).value, Apply(false, s, rec, y).value)
    decreases if rec.Payload? then |rec.bytes| else 0, 2
  {
    hide Decode, Update, FieldStandsFor, Split, OlderKind;
    var k := rec.k;
    OlderIsAligned(s, t);
    UpdateOlder(s[k], t[k], rec, x.fields[k], y.fields[k]);
    var x1, y1 := Apply(false, t, rec, x).value, Apply(false, s, rec, y).value;
    if Split(s, x.unknown).Some? {
      NoRecordsFor(s, t, x.unknown, k);
    }
    UntouchedField(s, x.unknown, KnownPart(s, t, y), y, k, y1.fields[k]);
    assert KnownPart(s, t, y).Set(k, y1.fields[k]) == KnownPart(s, t, y1);
  }

  lemma {:induction false} UpdateOlder(s: Kind, t: Kind, rec: Record, f: Field, g: Field)
    requires OlderKind(t, s) && !t.KUnused? && FieldStandsFor(s, t, f, g)
    requires !rec.Unknown? && rec.Scalar? == s.IsScalar() && (rec.Scalar? ==> rec.v < UINT64)
    requires rec.Payload? ==> |rec.bytes| < INT_LIMIT
    requires Update(false, s, rec, g).Ok?
    ensures Update(false, t, rec, f).Ok?
    ensures FieldStandsFor(s, t, Update(false, t, rec, f).value, Update(false, s, rec, g).value)
    decreases if rec.Payload? then |rec.bytes| else 0, 1
  {
    hide Decode, StandsFor, Valid;
    match t
    case KMessage(u) =>
      EmptyStandsFor(s.sub, u);
      DecodeOlder(s.sub, u, rec.bytes, 0, SubMessage(u, f), SubMessage(s.sub, g));
    case KMessages(u) =>
      EmptyStandsFor(s.elem, u);
      DecodeOlder(s.elem, u, rec.bytes, 0, Empty(u), Empty(s.elem));
    case _ =>
      UpdateKeepsValid(false, s, rec, g);
  }

  /** The older reader accepts what the full reader accepts, and what it makes of the
      input keeps standing for the full message. */
  lemma {:induction false} DecodeOlder(s: Schema, t: Schema, b: Bytes, at: nat, x: Message, y: Message)
    requires Older(t, s) && StandsFor(s, t, x, y) && |b| < INT_LIMIT
    requires Decode(false, s, b, at, y).Ok?
    ensures Decode(false, t, b, at, x).Ok?
    ensures StandsFor(s, t, Decode(false, t, b, at, x).value, Decode(false, s, b, at, y).value)
    decreases |b|, 0
  {
    hide Lex, Apply, StandsFor, Older, Aligned;
    if b != [] {
      var l := Lex(s, b, at).value;
      var y1 := Apply(false, s, l.rec, y).value;
      OlderIsAligned(s, t);
      LexAligned(s, t, b, at);
      var r := Lex(t, b, at).value.rec;
      if r.Unknown? {
        KeepRecord(s, t, b, at, x, y);
        AppliesUnknown(t, r, x);
      } else {
        LexFits(s, b, at);
        ApplyOlder(s, t, r, x, y);
      }
      DecodeOlder(s, t, b[l.n..], at + l.n, Apply(false, t, r, x).value, y1);
    }
  }

  lemma AppliesUnknown(t: Schema, rec: Record, x: Message)
    requires rec.Unknown?
    ensures Apply(false, t, rec, x) == Ok(x.AddUnknown(rec.raw))
  {
  }

  // ------------------------------------- what an older reader passes on, read in full

  lemma {:induction false} ElementsReadInFull(s: Schema, num: nat, t: Schema, ms: seq<Message>, ns: seq<Message>,
    at: nat, z: Message)
    requires 1 <= num <= |s| <= 15 && s[num - 1].KMessages?
    requires Narrow(s[num - 1].elem) && Older(t, s[num - 1].elem)
    requires |z.fields| == |s| && z.fields[num - 1] == FMessages([]) && |ms| == |ns|
    requires forall i :: 0 <= i < |ms| ==> StandsFor(s[num - 1].elem, t, ms[i], ns[i])
    requires SizeElements(ms) < INT_LIMIT
    ensures Decode(false, s, EncodeElements(num, ms), at, z) == Ok(z.Set(num - 1, FMessages(ns)))
    decreases ms
  {
    hide Decode, Lex, EncodeBytes, StandsFor, Narrow, Older, Size, Encode;
    if ms == [] {
      SetTwice(z, num - 1, z.fields[num - 1], z.fields[num - 1]);
      DecodeNothing(s, at, z);
    } else {
      var n := |ms| - 1;
      var e := Encode(ms[n]);
      ElementsReadInFull(s, num, t, ms[..n], ns[..n], at, z);
      var w := z.Set(num - 1, FMessages(ns[..n]));
      var from := at + |EncodeElements(num, ms[..n])|;
      DecodeConcat(false, s, EncodeElements(num, ms[..n]), EncodeBytes(num, e), at, z);
      SizeIsEncodedLength(ms[n]);
      LexBytes(s, num, e, from);
      OneRecord(false, s, EncodeBytes(num, e), from, w, Payload(num - 1, e));
      ReadInFull(s[num - 1].elem, t, ms[n], ns[n]);
      assert ns[..n] + [ns[n]] == ns;
      SetTwice(z, num - 1, w.fields[num - 1], FMessages(ns));
    }
  }

  lemma {:induction false} FieldReadInFull(s: Schema, num: nat, t: Kind, f: Field, g: Field, at: nat, z: Message)
    requires 1 <= num <= |s| <= 15 && NarrowKind(s[num - 1]) && OlderKind(t, s[num - 1])
    requires |z.fields| == |s| && z.fields[num - 1] == Default(s[num - 1])
    requires FieldStandsFor(s[num - 1], t, f, g) && SizeField(f) < INT_LIMIT
    ensures Decode(false, s, EncodeField(num, f), at, z) == Ok(if t.KUnused? then z else z.Set(num - 1, g))
    decreases f
  {
    hide Decode, Lex, EncodeBytes, StandsFor, Narrow, Older, Size, Encode;
    DecodeNothing(s, at, z);
    SetTwice(z, num - 1, z.fields[num - 1], z.fields[num - 1]);
    match t
    case KUnused =>
    case KMessage(u) =>
      if f.m.Some? {
        var e := Encode(f.m.value);
        SizeIsEncodedLength(f.m.value);
        LexBytes(s, num, e, at);
        OneRecord(false, s, EncodeBytes(num, e), at, z, Payload(num - 1, e));
        ReadInFull(s[num - 1].sub, u, f.m.value, g.m.value);
      }
    case KMessages(u) =>
      ElementsReadInFull(s, num, u, f.ms, g.ms, at, z);
    case _ =>
      DecodeField(s, num, g, at, z);
      MergeIntoDefault(s[num - 1], g);
  }

  lemma MergeIntoDefault(kind: Kind, f: Field)
    requires ValidField(kind, f)
    ensures MergeField(Default(kind), f) == f && ValidField(kind, Default(kind))
  {
  }

  /** The first `n` fields that the older reader has. */
  lemma {:induction false} FieldsReadInFull(s: Schema, t: Schema, x: Message, y: Message, n: nat)
    requires Narrow(s) && Older(t, s) && StandsFor(s, t, x, y) && Size(x) < INT_LIMIT && n <= |t|
    ensures Decode(false, s, EncodeFields(x.fields[..n]), 0, Empty(s)) == Ok(KnownPart(s, t[..n], y))
    decreases x, 0, n
  {
    hide Decode, FieldStandsFor, OlderKind, NarrowKind, SizeFields, SizeField, EncodeField, ValidUnknown, Default;
    if n == 0 {
      DecodeNothing(s, 0, Empty(s));
      assert KnownPart(s, t[..0], y) == Empty(s);
    } else {
      var k := n - 1;
      var z := KnownPart(s, t[..k], y);
      var from := |EncodeFields(x.fields[..k])|;
      FieldsReadInFull(s, t, x, y, k);
      FieldSize(x.fields, k);
      FieldReadInFull(s, n, t[k], x.fields[k], y.fields[k], from, z);
      assert x.fields[..n][..k] == x.fields[..k];
      DecodeConcat(false, s, EncodeFields(x.fields[..k]), EncodeField(n, x.fields[k]), 0, Empty(s));
      assert KnownPart(s, t[..n], y) == if t[k].KUnused? then z else z.Set(k, y.fields[k]);
    }
  }

  /** The encoding of a message that stands for another decodes to the other. */
  lemma {:induction false} ReadInFull(s: Schema, t: Schema, x: Message, y: Message)
    requires Narrow(s) && Older(t, s) && StandsFor(s, t, x, y) && Size(x) < INT_LIMIT
    ensures Decode(false, s, Encode(x), 0, Empty(s)) == Ok(y)
    decreases x, 1
  {
    hide Decode, FieldStandsFor, Older, EncodeFields;
    FieldsReadInFull(s, t, x, y, |t|);
    assert x.fields[..|t|] == x.fields && t[..|t|] == t;
    DecodeConcat(false, s, EncodeFields(x.fields), x.unknown, 0, Empty(s));
    DecodeShift(false, s, x.unknown, 0, |EncodeFields(x.fields)|, KnownPart(s, t, y));
  }

  /** Forward compatibility: an input that passes through a reader that lacks fields, at
      any level, and is encoded again still decodes to the same full message. */
  lemma OldReaderKeepsMeaning(s: Schema, t: Schema, b: Bytes)
    requires Narrow(s) && Older(t, s) && |b| < INT_LIMIT
    requires Decode(false, s, b, 0, Empty(s)).Ok?
    ensures Decode(false, t, b, 0, Empty(t)).Ok?
    ensures Decode(false, s, Encode(Decode(false, t, b, 0, Empty(t)).value), 0, Empty(s))
         == Decode(false, s, b, 0, Empty(s))
  {
    hide Decode, StandsFor, Older, Encode, Size, Narrow;
    EmptyStandsFor(s, t);
    DecodeOlder(s, t, b, 0, Empty(t), Empty(s));
    DecodeNoGrowth(false, t, b, 0, Empty(t));
    SizeOfEmpty(t);
    ReadInFull(s, t, Decode(false, t, b, 0, Empty(t)).value, Decode(false, s, b, 0, Empty(s)).value);
  }
}
