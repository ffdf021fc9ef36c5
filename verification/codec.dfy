/** Messages as values, and the size, encoding and decoding of a message of any
    schema: the specification that the generated methods are proved against. */
module Codec {
  import opened Wire

  // -------------------------------------------------------------- data model

  /** What a field holds: nothing when its number is not in use, one string or byte field,
      a list of strings, a uint64 or the 64 bits of an int64, a bool, one sub-message, a
      list of sub-messages. Field number k + 1 has kind k of the schema. */
  datatype Kind =
    | KUnused
    | KBytes
    | KRepeated
    | KUint64
    | KBool
    | KMessage(sub: seq<Kind>)
    | KMessages(elem: seq<Kind>)
  {
    predicate IsScalar() {
      KUint64? || KBool?
    }
  }

  type Schema = seq<Kind>

  /** Whether schema `s` has a field of this number. */
  predicate Knows(s: Schema, num: nat) {
    1 <= num <= |s| && !s[num - 1].KUnused?
  }

  datatype Field =
    | FBytes(b: Bytes)
    | FRepeated(bs: seq<Bytes>)
    | FUint64(v: nat)
    | FMessage(m: Option<Message>)
    | FMessages(ms: seq<Message>)

  /** A message: its fields in field-number order and the records it does not know. */
  datatype Message = Message(fields: seq<Field>, unknown: Bytes) {
    /** Field `k`; the default is never met on a message that fits its schema. */
    function Get(k: nat): Field {
      if k < |fields| then fields[k] else FBytes([])
    }

    function Set(k: nat, f: Field): Message {
      if k < |fields| then this.(fields := fields[k := f]) else this
    }

    function AddUnknown(raw: Bytes): Message {
      this.(unknown := unknown + raw)
    }
  }

  /** The default value of a field, which the encoder omits. */
  function Default(kind: Kind): Field {
    match kind
    case KUnused => FBytes([])
    case KBytes => FBytes([])
    case KRepeated => FRepeated([])
    case KUint64 => FUint64(0)
    case KBool => FUint64(0)
    case KMessage(_) => FMessage(None)
    case KMessages(_) => FMessages([])
  }

  function Empty(s: Schema): (x: Message)
    ensures |x.fields| == |s| && x.unknown == []
  {
    Message(seq(|s|, k requires 0 <= k < |s| => Default(s[k])), [])
  }

  /** The list behind a field, empty when the field is no list. */
  function Strings(f: Field): seq<Bytes> {
    if f.FRepeated? then f.bs else []
  }

  function Elements(f: Field): seq<Message> {
    if f.FMessages? then f.ms else []
  }

  /** The sub-message of a field, allocated when absent. */
  function SubMessage(s: Schema, f: Field): Message {
    if f.FMessage? && f.m.Some? then f.m.value else Empty(s)
  }

  // ------------------------------------------------------------------- size

  function SizeBytes(len: nat): nat {
    1 + len + Sov(len)
  }

  function SizeStrings(bs: seq<Bytes>): nat {
    if bs == [] then 0
    else SizeStrings(bs[..|bs| - 1]) + SizeBytes(|bs[|bs| - 1]|)
  }

  function SizeElements(ms: seq<Message>): nat {
    if ms == [] then 0
    else SizeElements(ms[..|ms| - 1]) + SizeBytes(Size(ms[|ms| - 1]))
  }

  function SizeField(f: Field): nat {
    match f
    case FBytes(b) => if b == [] then 0 else SizeBytes(|b|)
    case FRepeated(bs) => SizeStrings(bs)
    case FUint64(v) => if v == 0 then 0 else 1 + Sov(v)
    case FMessage(m) => if m.None? then 0 else SizeBytes(Size(m.value))
    case FMessages(ms) => SizeElements(ms)
  }

  function SizeFields(fs: seq<Field>): nat {
    if fs == [] then 0
    else SizeFields(fs[..|fs| - 1]) + SizeField(fs[|fs| - 1])
  }

  function Size(x: Message): nat {
    SizeFields(x.fields) + |x.unknown|
  }

  // --------------------------------------------------------------- encoding

  /** The one-byte tag of a field number below 16. */
  function Tag(num: nat, wireType: nat): byte {
    (8 * num + wireType) % 256
  }

  function EncodeBytes(num: nat, b: Bytes): Bytes {
    [Tag(num, 2)] + Varint(|b|) + b
  }

  function EncodeStrings(num: nat, bs: seq<Bytes>): Bytes {
    if bs == [] then []
    else EncodeStrings(num, bs[..|bs| - 1]) + EncodeBytes(num, bs[|bs| - 1])
  }

  function EncodeElements(num: nat, ms: seq<Message>): Bytes
    decreases ms
  {
    if ms == [] then []
    else EncodeElements(num, ms[..|ms| - 1]) + EncodeBytes(num, Encode(ms[|ms| - 1]))
  }

  function EncodeField(num: nat, f: Field): Bytes
    decreases f
  {
    match f
    case FBytes(b) => if b == [] then [] else EncodeBytes(num, b)
    case FRepeated(bs) => EncodeStrings(num, bs)
    case FUint64(v) => if v == 0 then [] else [Tag(num, 0)] + Varint(v)
    case FMessage(m) => if m.None? then [] else EncodeBytes(num, Encode(m.value))
    case FMessages(ms) => EncodeElements(num, ms)
  }

  /** All fields, in field-number order. */
  function EncodeFields(fs: seq<Field>): Bytes {
    if fs == [] then []
    else EncodeFields(fs[..|fs| - 1]) + EncodeField(|fs|, fs[|fs| - 1])
  }

  /** The forward encoding: fields in number order, then the unknown records. */
  function Encode(x: Message): Bytes {
    EncodeFields(x.fields) + x.unknown
  }

  // --------------------------------------------------------------- decoding

  /** One record off the wire: the payload of a length-delimited field, the value of
      a varint field, or an unknown record kept as it is. */
  datatype Record =
    | Payload(k: nat, bytes: Bytes)
    | Scalar(k: nat, v: nat)
    | Unknown(raw: Bytes)
  {
    /** The field the record is for; `None` for an unknown one. */
    function Slot(): Option<nat> {
      if Unknown? then None else Some(k)
    }
  }

  datatype Lexeme = Lexeme(rec: Record, n: nat)

  /** The field number and wire type in front of a record, and the tag's length. */
  datatype Header = Header(num: nat, wireType: nat, n: nat)

  function ReadHeader(b: Bytes): (r: Result<Header>)
    ensures r.Ok? ==> 1 <= r.value.n <= |b| && r.value.num >= 1
  {
    var tag :- ReadVarint(b);
    var num := ToInt32(tag.v / 8);
    if tag.v % 8 == 4 then Err(EndGroup)
    else if num <= 0 then Err(IllegalTag(num, tag.v))
    else Ok(Header(num, tag.v % 8, tag.n))
  }

  /** The record after the header of a field that the schema knows. */
  function ReadKnown(kind: Kind, b: Bytes, at: nat, h: Header): (r: Result<Lexeme>)
    requires 1 <= h.num && h.n <= |b|
    ensures r.Ok? ==> h.n < r.value.n <= |b| && !r.value.rec.Unknown? && r.value.rec.k == h.num - 1
    ensures r.Ok? ==> r.value.rec.Scalar? == kind.IsScalar()
    ensures r.Ok? && r.value.rec.Payload? ==> |r.value.rec.bytes| < r.value.n
  {
    if kind.IsScalar() then
      if h.wireType != 0 then Err(WrongWireType(h.wireType, h.num))
      else
        var x :- ReadVarint(b[h.n..]);
        Ok(Lexeme(Scalar(h.num - 1, x.v), h.n + x.n))
    else if h.wireType != 2 then Err(WrongWireType(h.wireType, h.num))
    else
      var span :- ReadSpan(b, at, h.n);
      Ok(Lexeme(Payload(h.num - 1, b[span.from..span.end]), span.end))
  }

  /** The whole record at the front of `b`, tag included, kept verbatim. */
  function ReadUnknown(b: Bytes, at: nat): (r: Result<Lexeme>)
    ensures r.Ok? ==> 1 <= r.value.n <= |b| && r.value.rec == Unknown(b[..r.value.n])
  {
    var n :- Skip(b);
    var end :- EndOf(b, at, 0, n);
    Ok(Lexeme(Unknown(b[..end]), end))
  }

  /** The record at the front of `b`, which starts at index `at` of its buffer. */
  function Lex(s: Schema, b: Bytes, at: nat): (r: Result<Lexeme>)
    ensures r.Ok? ==> 1 <= r.value.n <= |b|
    ensures r.Ok? && r.value.rec.Payload? ==> |r.value.rec.bytes| < r.value.n
    ensures r.Ok? && r.value.rec.Payload? ==> Knows(s, r.value.rec.k + 1) && !s[r.value.rec.k].IsScalar()
    ensures r.Ok? && r.value.rec.Scalar? ==> Knows(s, r.value.rec.k + 1) && s[r.value.rec.k].IsScalar()
    ensures r.Ok? && r.value.rec.Unknown? ==> r.value.rec.raw == b[..r.value.n]
  {
    var h :- ReadHeader(b);
    if Knows(s, h.num) then ReadKnown(s[h.num - 1], b, at, h) else ReadUnknown(b, at)
  }

  /** What a varint becomes in a field: every value but 0 is true. */
  function Stored(kind: Kind, v: nat): nat {
    if kind.KBool? && v != 0 then 1 else v
  }

  /** A known field after one record for it: a scalar is overwritten, a list grows, a
      sub-message is decoded into the one that is there. `Lex` gives scalars to uint64
      and bool fields only and payloads to the others only. */
  function Update(discard: bool, kind: Kind, rec: Record, f: Field): Result<Field>
    requires !rec.Unknown?
    decreases if rec.Payload? then |rec.bytes| else 0, 1
  {
    if rec.Scalar? then Ok(FUint64(Stored(kind, rec.v))) else
    match kind
    case KUnused => Ok(f)
    case KBytes => Ok(FBytes(rec.bytes))
    case KRepeated => Ok(FRepeated(Strings(f) + [rec.bytes]))
    case KUint64 => Ok(f)
    case KBool => Ok(f)
    case KMessage(t) =>
      var m :- Decode(discard, t, rec.bytes, 0, SubMessage(t, f));
      Ok(FMessage(Some(m)))
    case KMessages(t) =>
      var m :- Decode(discard, t, rec.bytes, 0, Empty(t));
      Ok(FMessages(Elements(f) + [m]))
  }

  /** The effect of one record on message `x`; an unknown one is kept unless discarded. */
  function Apply(discard: bool, s: Schema, rec: Record, x: Message): Result<Message>
    decreases if rec.Payload? then |rec.bytes| else 0, 2
  {
    if rec.Unknown? then Ok(if discard then x else x.AddUnknown(rec.raw))
    else if rec.k >= |s| then Ok(x)
    else
      var f :- Update(discard, s[rec.k], rec, x.Get(rec.k));
      Ok(x.Set(rec.k, f))
  }

  /** Decodes `b`, which starts at index `at` of its buffer, into message `x`. */
  function Decode(discard: bool, s: Schema, b: Bytes, at: nat, x: Message): Result<Message>
    decreases |b|, 0
  {
    if b == [] then Ok(x)
    else
      var l :- Lex(s, b, at);
      var y :- Apply(discard, s, l.rec, x);
      Decode(discard, s, b[l.n..], at + l.n, y)
  }

  // --------------------------------------------------------------- validity

  /** Whole records, one after another, that schema `s` does not know. */
  predicate ValidUnknown(s: Schema, u: Bytes) {
    u == [] ||
    (Lex(s, u, 0).Ok? && Lex(s, u, 0).value.rec.Unknown? &&
     ValidUnknown(s, u[Lex(s, u, 0).value.n..]))
  }

  /** A message that fits schema `s`, at every level. */
  ghost predicate Valid(s: Schema, x: Message)
    decreases x
  {
    && |x.fields| == |s|
    && ValidUnknown(s, x.unknown)
    && forall k :: 0 <= k < |s| ==> ValidField(s[k], x.fields[k])
  }

  ghost predicate ValidField(kind: Kind, f: Field)
    decreases f
  {
    match kind
    case KUnused => f == FBytes([])
    case KBytes => f.FBytes?
    case KRepeated => f.FRepeated?
    case KUint64 => f.FUint64? && f.v < UINT64
    case KBool => f.FUint64? && f.v < 2
    case KMessage(t) => f.FMessage? && (f.m.Some? ==> Valid(t, f.m.value))
    case KMessages(t) => f.FMessages? && forall i :: 0 <= i < |f.ms| ==> Valid(t, f.ms[i])
  }

  /** Field numbers below 16 at every level, so that every tag is one byte. */
  ghost predicate Narrow(s: Schema) {
    |s| <= 15 && forall k :: 0 <= k < |s| ==> NarrowKind(s[k])
  }

  ghost predicate NarrowKind(kind: Kind) {
    match kind
    case KMessage(t) => Narrow(t)
    case KMessages(t) => Narrow(t)
    case _ => true
  }
}
