/** Readers that know fewer fields of a message, whichever they are: they accept the same
    inputs and keep what they do not know. */
module Compatibility {
  import opened Wire
  import opened Codec
  import opened Decoding
  import opened Sizes
  import opened RoundTrip

  lemma FieldlessStep(b: Bytes, at: nat, x: Message)
    requires b != [] && Decode(false, [], b, at, x).Ok?
    ensures Lex([], b, at).Ok?
    ensures var n := Lex([], b, at).value.n;
            Decode(false, [], b, at, x) == Decode(false, [], b[n..], at + n, x.AddUnknown(b[..n]))
  {
    hide Lex, Update;
  }

  /** A message without fields keeps its input byte for byte. */
  lemma {:induction false} FieldlessKeepsInput(b: Bytes, at: nat, x: Message)
    requires Decode(false, [], b, at, x).Ok?
    ensures Decode(false, [], b, at, x).value == x.AddUnknown(b)
    decreases |b|
  {
    hide Lex, Apply;
    if b == [] {
      assert x.unknown + b == x.unknown;
    } else {
      var n := Lex([], b, at).value.n;
      FieldlessStep(b, at, x);
      FieldlessKeepsInput(b[n..], at + n, x.AddUnknown(b[..n]));
      assert b[..n] + b[n..] == b;
      assert x.unknown + b[..n] + b[n..] == x.unknown + b;
    }
  }

  /** A record that is read can be skipped, and is skipped whole. */
  lemma SkipKnown(kind: Kind, b: Bytes, at: nat)
    requires ReadHeader(b).Ok? && ReadKnown(kind, b, at, ReadHeader(b).value).Ok?
    requires |b| < INT_LIMIT || Skip(b).Ok?
    ensures Skip(b) == Ok(ReadKnown(kind, b, at, ReadHeader(b).value).value.n)
  {
    hide ReadVarint;
    assert b[0..] == b;
    var h := ReadHeader(b).value;
    assert SkipOne(b, 0, 0) == Ok(Skipped(ReadKnown(kind, b, at, h).value.n, 0));
  }

  /** Schema `t` is `s` with fields left out: their numbers are gaps or lie beyond the end. */
  predicate Part(t: Schema, s: Schema) {
    |t| <= |s| && forall k :: 0 <= k < |t| ==> t[k] == s[k] || t[k].KUnused?
  }

  /** The fields of `t` are fields of `s` that start with the same wire type. */
  predicate Aligned(t: Schema, s: Schema) {
    |t| <= |s| &&
    forall k :: 0 <= k < |t| ==> t[k].KUnused? || (!s[k].KUnused? && t[k].IsScalar() == s[k].IsScalar())
  }

  /** What a reader of schema `t` makes of a record. */
  function AsSeenBy(t: Schema, l: Lexeme, b: Bytes): Lexeme
    requires l.n <= |b|
  {
    if l.rec.Unknown? || !Knows(t, l.rec.k + 1) then Lexeme(Unknown(b[..l.n]), l.n) else l
  }

  lemma LexAligned(s: Schema, t: Schema, b: Bytes, at: nat)
    requires Aligned(t, s) && Lex(s, b, at).Ok? && (|b| < INT_LIMIT || Lex(t, b, at).Ok?)
    ensures Lex(t, b, at) == Ok(AsSeenBy(t, Lex(s, b, at).value, b))
  {
    hide ReadHeader, Skip;
    var h := ReadHeader(b).value;
    if Knows(s, h.num) && !Knows(t, h.num) {
      SkipKnown(s[h.num - 1], b, at);
    }
  }

  /** The records of `b` that a reader of schema `t` does not know. */
  function Residue(s: Schema, t: Schema, b: Bytes): Bytes {
    if b == [] || Lex(s, b, 0).Err? then []
    else
      var l := Lex(s, b, 0).value;
      (if l.rec.Unknown? || !Knows(t, l.rec.k + 1) then b[..l.n] else []) + Residue(s, t, b[l.n..])
  }

  /** The smaller reader splits the input alike. */
  lemma {:induction false} SplitPart(s: Schema, t: Schema, b: Bytes)
    requires Aligned(t, s) && |b| < INT_LIMIT && Split(s, b).Some?
    ensures Split(t, b).Some?
    ensures forall k :: 0 <= k < |t| ==>
              ForField(Split(t, b).value, k) == if t[k].KUnused? then [] else ForField(Split(s, b).value, k)
    ensures UnknownBytes(Split(t, b).value) == Residue(s, t, b)
    decreases |b|
  {
    hide Lex;
    if b != [] {
      var l := Lex(s, b, 0).value;
      LexAligned(s, t, b, 0);
      SplitPart(s, t, b[l.n..]);
      var rs, ts := Split(s, b).value, Split(t, b).value;
      assert rs[1..] == Split(s, b[l.n..]).value;
      assert ts[1..] == Split(t, b[l.n..]).value;
    }
  }

  /** The fields of the full message that a reader of schema `t` has. */
  function View(t: Schema, fs: seq<Field>): seq<Field>
    requires |t| <= |fs|
  {
    seq(|t|, k requires 0 <= k < |t| => if t[k].KUnused? then Default(t[k]) else fs[k])
  }

  lemma ReplayNothing(discard: bool, kind: Kind, f: Field)
    ensures Replay(discard, kind, [], f) == Ok(f)
  {
  }

  /** A reader that lacks some fields accepts every input that the full reader accepts,
      decodes the fields it has alike and keeps the rest verbatim. */
  lemma PartialReader(s: Schema, t: Schema, b: Bytes)
    requires Part(t, s) && |b| < INT_LIMIT
    requires Decode(false, s, b, 0, Empty(s)).Ok?
    ensures |Decode(false, s, b, 0, Empty(s)).value.fields| == |s|
    ensures Decode(false, t, b, 0, Empty(t))
         == Ok(Message(View(t, Decode(false, s, b, 0, Empty(s)).value.fields), Residue(s, t, b)))
  {
    hide Decode, Apply, Lex, Replay;
    DecodeIsFold(false, s, b, 0, Empty(s));
    DecodeIsFold(false, t, b, 0, Empty(t));
    SplitPart(s, t, b);
    var rs, ts := Split(s, b).value, Split(t, b).value;
    ApplyAllFieldByField(false, s, rs, Empty(s));
    ApplyAllFieldByField(false, t, ts, Empty(t));
    var y := Decode(false, s, b, 0, Empty(s)).value;
    forall k | 0 <= k < |t|
      ensures ReplayField(false, t[k], ts, k, Empty(t).fields[k]) == Ok(View(t, y.fields)[k])
    {
      ReplayNothing(false, t[k], Default(t[k]));
      assert t[k].KUnused? || ForField(ts, k) == ForField(rs, k);
    }
    var x := ApplyAll(false, t, ts, Empty(t)).value;
    assert x.fields == View(t, y.fields);
    assert [] + UnknownBytes(ts) == UnknownBytes(ts);
  }

  /** Every encoding is accepted by a message without fields, which passes it on
      unchanged, so the original message is still there. */
  lemma EncodingPassesThrough(s: Schema, m: Message)
    requires Narrow(s) && Valid(s, m) && Size(m) < INT_LIMIT
    ensures Decode(false, [], Encode(m), 0, Empty([])) == Ok(Message([], Encode(m)))
    ensures Encode(Message([], Encode(m))) == Encode(m)
    ensures Decode(false, s, Encode(Message([], Encode(m))), 0, Empty(s)) == Ok(m)
  {
    hide Decode, Valid, Size;
    EncodedDecodes(s, m);
    SizeIsEncodedLength(m);
    PartialReader(s, [], Encode(m));
    FieldlessKeepsInput(Encode(m), 0, Empty([]));
    assert Empty([]).AddUnknown(Encode(m)) == Message([], Encode(m));
  }
}
