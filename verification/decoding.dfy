/** Laws of the decoder over whole inputs: decoding is a left fold over records, so
    inputs concatenate, records of different fields commute, and discarding unknown
    records is the same as erasing them afterwards. */
module Decoding {
  import opened Wire
  import opened Codec
  import opened Lexing

  /** Both decodings fail, or both give the same message. */
  predicate Same<T(==)>(r: Result<T>, q: Result<T>) {
    r.Ok? || q.Ok? ==> r == q
  }

  // ---------------------------------------------------------- concatenation

  /** Decoding `b ++ c` is decoding `b`, then `c` into the result, with the same error. */
  lemma {:induction false} DecodeConcat(discard: bool, s: Schema, b: Bytes, c: Bytes, at: nat, x: Message)
    requires Decode(discard, s, b, at, x).Ok?
    ensures Decode(discard, s, b + c, at, x) == Decode(discard, s, c, at + |b|, Decode(discard, s, b, at, x).value)
    decreases |b|
  {
    hide Lex, Apply;
    if b == [] {
      assert b + c == c;
    } else {
      var l := Lex(s, b, at).value;
      var y := Apply(discard, s, l.rec, x).value;
      assert (b + c)[..l.n] == b[..l.n];
      LexLocal(s, b, at, b + c, at);
      assert (b + c)[l.n..] == b[l.n..] + c;
      DecodeConcat(discard, s, b[l.n..], c, at + l.n, y);
    }
  }

  /** Where the input stands in its buffer decides at most which error is reported. */
  lemma {:induction false} DecodeShift(discard: bool, s: Schema, b: Bytes, at: nat, at': nat, x: Message)
    ensures Same(Decode(discard, s, b, at, x), Decode(discard, s, b, at', x))
    decreases |b|
  {
    hide Lex, Apply;
    if b != [] {
      if Lex(s, b, at).Ok? {
        LexLocal(s, b, at, b, at');
      } else if Lex(s, b, at').Ok? {
        LexLocal(s, b, at', b, at);
      }
      if Lex(s, b, at).Ok? && Apply(discard, s, Lex(s, b, at).value.rec, x).Ok? {
        var l := Lex(s, b, at).value;
        DecodeShift(discard, s, b[l.n..], at + l.n, at' + l.n, Apply(discard, s, l.rec, x).value);
      }
    }
  }

  /** Two inputs in one buffer, or in two calls on the same object. */
  lemma DecodeTwice(discard: bool, s: Schema, b: Bytes, c: Bytes, x: Message)
    requires Decode(discard, s, b, 0, x).Ok?
    ensures Same(Decode(discard, s, b + c, 0, x), Decode(discard, s, c, 0, Decode(discard, s, b, 0, x).value))
  {
    hide Decode;
    DecodeConcat(discard, s, b, c, 0, x);
    DecodeShift(discard, s, c, |b|, 0, Decode(discard, s, b, 0, x).value);
  }

  // ------------------------------------------------------------------ failures

  /** The record at index `i` of `b` fails with `e`, the input before it being accepted. */
  ghost predicate FailsAt(discard: bool, s: Schema, b: Bytes, at: nat, x: Message, i: nat, e: Error) {
    i < |b| && Decode(discard, s, b[..i], at, x).Ok? &&
    match Lex(s, b[i..], at + i)
    case Err(f) => e == f
    case Ok(l) => Apply(discard, s, l.rec, Decode(discard, s, b[..i], at, x).value) == Err(e)
  }

  /** Decoding fails exactly with the error of the first record that cannot be read or
      applied. */
  lemma FailsExactly(discard: bool, s: Schema, b: Bytes, at: nat, x: Message, e: Error)
    ensures Decode(discard, s, b, at, x) == Err(e) <==> exists i :: FailsAt(discard, s, b, at, x, i, e)
  {
    hide Decode, FailsAt;
    if Decode(discard, s, b, at, x) == Err(e) {
      var i := FirstFailure(discard, s, b, at, x, e);
    }
    if i :| FailsAt(discard, s, b, at, x, i, e) {
      FailureIsReported(discard, s, b, at, x, i, e);
    }
  }

  lemma FailureIsReported(discard: bool, s: Schema, b: Bytes, at: nat, x: Message, i: nat, e: Error)
    requires FailsAt(discard, s, b, at, x, i, e)
    ensures Decode(discard, s, b, at, x) == Err(e)
  {
    hide Lex, Apply;
    assert b[..i] + b[i..] == b;
    DecodeConcat(discard, s, b[..i], b[i..], at, x);
  }

  lemma DecodesFirst(discard: bool, s: Schema, b: Bytes, at: nat, x: Message)
    requires Lex(s, b, at).Ok?
    ensures Decode(discard, s, b[..Lex(s, b, at).value.n], at, x) == Apply(discard, s, Lex(s, b, at).value.rec, x)
  {
    hide Lex, Apply;
    var n := Lex(s, b, at).value.n;
    LexLocal(s, b, at, b[..n], at);
    assert b[..n][n..] == [];
  }

  lemma FailsLater(discard: bool, s: Schema, b: Bytes, at: nat, x: Message, j: nat, e: Error)
    requires Lex(s, b, at).Ok? && Apply(discard, s, Lex(s, b, at).value.rec, x).Ok?
    requires var l := Lex(s, b, at).value;
             FailsAt(discard, s, b[l.n..], at + l.n, Apply(discard, s, l.rec, x).value, j, e)
    ensures FailsAt(discard, s, b, at, x, Lex(s, b, at).value.n + j, e)
  {
    hide Lex, Apply, Decode;
    var n := Lex(s, b, at).value.n;
    var c := b[n..][..j];
    assert b[n..][j..] == b[n + j..];
    assert b[..n] + c == b[..n + j];
    DecodesFirst(discard, s, b, at, x);
    DecodeConcat(discard, s, b[..n], c, at, x);
  }

  lemma {:induction false} FirstFailure(discard: bool, s: Schema, b: Bytes, at: nat, x: Message, e: Error)
    returns (i: nat)
    requires Decode(discard, s, b, at, x) == Err(e)
    ensures FailsAt(discard, s, b, at, x, i, e)
    decreases |b|
  {
    hide Lex, Apply;
    i := 0;
    if Lex(s, b, at).Ok? && Apply(discard, s, Lex(s, b, at).value.rec, x).Ok? {
      hide FailsAt;
      var l := Lex(s, b, at).value;
      var j := FirstFailure(discard, s, b[l.n..], at + l.n, Apply(discard, s, l.rec, x).value, e);
      FailsLater(discard, s, b, at, x, j, e);
      i := l.n + j;
    } else {
      assert b[0..] == b && b[..0] == [];
    }
  }

  /** An error inside a sub-message or list element is the error of the whole record. */
  lemma NestedErrorIsReported(discard: bool, s: Schema, rec: Record, x: Message, e: Error)
    requires rec.Payload? && rec.k < |s| == |x.fields|
    requires s[rec.k].KMessage? || s[rec.k].KMessages?
    requires s[rec.k].KMessage? ==>
               Decode(discard, s[rec.k].sub, rec.bytes, 0, SubMessage(s[rec.k].sub, x.fields[rec.k])) == Err(e)
    requires s[rec.k].KMessages? ==> Decode(discard, s[rec.k].elem, rec.bytes, 0, Empty(s[rec.k].elem)) == Err(e)
    ensures Apply(discard, s, rec, x) == Err(e)
  {
    hide Decode;
  }

  // ------------------------------------------------------- a fold of records

  /** The records of `b`, in order, if it is a sequence of whole records. */
  function Split(s: Schema, b: Bytes): Option<seq<Record>> {
    if b == [] then Some([])
    else if Lex(s, b, 0).Err? then None
    else
      var l := Lex(s, b, 0).value;
      var rest := Split(s, b[l.n..]);
      if rest.None? then None else Some([l.rec] + rest.value)
  }

  function ApplyAll(discard: bool, s: Schema, recs: seq<Record>, x: Message): Result<Message> {
    if recs == [] then Ok(x)
    else
      var y :- Apply(discard, s, recs[0], x);
      ApplyAll(discard, s, recs[1..], y)
  }

  /** The decoder accepts exactly the record sequences whose every record applies. */
  lemma {:induction false} DecodeIsFold(discard: bool, s: Schema, b: Bytes, at: nat, x: Message)
    ensures Decode(discard, s, b, at, x).Ok? <==>
            Split(s, b).Some? && ApplyAll(discard, s, Split(s, b).value, x).Ok?
    ensures Decode(discard, s, b, at, x).Ok? ==>
            Decode(discard, s, b, at, x) == ApplyAll(discard, s, Split(s, b).value, x)
    decreases |b|
  {
    hide Lex, Apply;
    if b != [] {
      if Lex(s, b, at).Ok? {
        LexLocal(s, b, at, b, 0);
      } else if Lex(s, b, 0).Ok? {
        LexLocal(s, b, 0, b, at);
      }
      if Lex(s, b, at).Ok? {
        var l := Lex(s, b, at).value;
        if Split(s, b).Some? {
          assert Split(s, b).value[1..] == Split(s, b[l.n..]).value;
        }
        if Apply(discard, s, l.rec, x).Ok? {
          DecodeIsFold(discard, s, b[l.n..], at + l.n, Apply(discard, s, l.rec, x).value);
        }
      }
    }
  }

  // ------------------------------------------------------ order independence

  /** The records for field `k`, in order. */
  function ForField(recs: seq<Record>, k: nat): seq<Record> {
    if recs == [] then []
    else (if recs[0].Slot() == Some(k) then [recs[0]] else []) + ForField(recs[1..], k)
  }

  /** The unknown records, joined. */
  function UnknownBytes(recs: seq<Record>): Bytes {
    if recs == [] then []
    else (if recs[0].Unknown? then recs[0].raw else []) + UnknownBytes(recs[1..])
  }

  /** One field after the records for it alone. */
  function Replay(discard: bool, kind: Kind, recs: seq<Record>, f: Field): Result<Field>
    requires forall i :: 0 <= i < |recs| ==> !recs[i].Unknown?
  {
    if recs == [] then Ok(f)
    else
      var g :- Update(discard, kind, recs[0], f);
      Replay(discard, kind, recs[1..], g)
  }

  lemma {:induction false} ForFieldKnown(recs: seq<Record>, k: nat)
    ensures forall i :: 0 <= i < |ForField(recs, k)| ==> !ForField(recs, k)[i].Unknown?
  {
    if recs != [] {
      ForFieldKnown(recs[1..], k);
    }
  }

  function ReplayField(discard: bool, kind: Kind, recs: seq<Record>, k: nat, f: Field): Result<Field> {
    ForFieldKnown(recs, k);
    Replay(discard, kind, ForField(recs, k), f)
  }

  /** Every field of the result is the field's own records replayed on its old value,
      and the unknown bytes grow by the unknown records: no record affects another field. */
  ghost predicate FieldByField(discard: bool, s: Schema, recs: seq<Record>, x: Message, y: Message)
    requires |x.fields| == |s|
  {
    && |y.fields| == |s|
    && y.unknown == (if discard then x.unknown else x.unknown + UnknownBytes(recs))
    && forall k :: 0 <= k < |s| ==>
         ReplayField(discard, s[k], recs, k, x.fields[k]) == Ok(y.fields[k])
  }

  /** A record for another field changes nothing for field `k`. */
  lemma ReplayOther(discard: bool, kind: Kind, recs: seq<Record>, k: nat, f: Field)
    requires recs != [] && recs[0].Slot() != Some(k)
    ensures ReplayField(discard, kind, recs, k, f) == ReplayField(discard, kind, recs[1..], k, f)
  {
    hide Replay;
    assert [] + ForField(recs[1..], k) == ForField(recs[1..], k);
  }

  lemma ReplayHead(discard: bool, kind: Kind, recs: seq<Record>, f: Field)
    requires recs != [] && !recs[0].Unknown?
    ensures ReplayField(discard, kind, recs, recs[0].k, f)
         == (var g :- Update(discard, kind, recs[0], f); ReplayField(discard, kind, recs[1..], recs[0].k, g))
  {
    hide Update;
    assert ForField(recs, recs[0].k)[1..] == ForField(recs[1..], recs[0].k);
  }

  /** The first record, applied, leaves every field the rest of its replay. */
  lemma ApplyHead(discard: bool, s: Schema, recs: seq<Record>, x: Message, y: Message)
    requires recs != [] && |x.fields| == |s| && Apply(discard, s, recs[0], x) == Ok(y)
    ensures |y.fields| == |s|
    ensures forall k :: 0 <= k < |s| ==>
              ReplayField(discard, s[k], recs, k, x.fields[k]) == ReplayField(discard, s[k], recs[1..], k, y.fields[k])
  {
    hide Update, ReplayField;
    forall k | 0 <= k < |s|
      ensures ReplayField(discard, s[k], recs, k, x.fields[k]) == ReplayField(discard, s[k], recs[1..], k, y.fields[k])
    {
      if recs[0].Slot() == Some(k) {
        ReplayHead(discard, s[k], recs, x.fields[k]);
      } else {
        ReplayOther(discard, s[k], recs, k, x.fields[k]);
      }
    }
  }

  /** Decoding is field by field: it fails just when some field's own records fail. */
  lemma {:induction false} ApplyAllFieldByField(discard: bool, s: Schema, recs: seq<Record>, x: Message)
    requires |x.fields| == |s|
    ensures var r := ApplyAll(discard, s, recs, x);
            if r.Ok? then FieldByField(discard, s, recs, x, r.value)
            else exists k :: 0 <= k < |s| && ReplayField(discard, s[k], recs, k, x.fields[k]).Err?
    decreases |recs|
  {
    hide Update, ReplayField;
    if recs == [] {
      forall k | 0 <= k < |s|
        ensures ReplayField(discard, s[k], recs, k, x.fields[k]) == Ok(x.fields[k])
      {
        ReplayNone(discard, s[k], k, x.fields[k]);
      }
      assert x.unknown + [] == x.unknown;
    } else if Apply(discard, s, recs[0], x).Ok? {
      var y := Apply(discard, s, recs[0], x).value;
      ApplyHead(discard, s, recs, x, y);
      ApplyAllFieldByField(discard, s, recs[1..], y);
      UnknownHead(discard, s, recs, x, y);
    } else {
      ReplayHead(discard, s[recs[0].k], recs, x.fields[recs[0].k]);
    }
  }

  lemma ReplayNone(discard: bool, kind: Kind, k: nat, f: Field)
    ensures ReplayField(discard, kind, [], k, f) == Ok(f)
  {
  }

  lemma UnknownHead(discard: bool, s: Schema, recs: seq<Record>, x: Message, y: Message)
    requires recs != [] && Apply(discard, s, recs[0], x) == Ok(y)
    ensures (if discard then y.unknown else y.unknown + UnknownBytes(recs[1..]))
         == (if discard then x.unknown else x.unknown + UnknownBytes(recs))
  {
    hide Update;
    var rest := UnknownBytes(recs[1..]);
    if recs[0].Unknown? {
      Associative(x.unknown, recs[0].raw, rest);
    } else {
      assert [] + rest == rest;
    }
  }

  /** Record order matters only within one field and among the unknown records: two
      inputs with the same records per field, however interleaved, decode alike. */
  lemma OrderIndependent(discard: bool, s: Schema, b: Bytes, c: Bytes, at: nat, at': nat, x: Message)
    requires |x.fields| == |s|
    requires Split(s, b).Some? && Split(s, c).Some?
    requires forall k :: 0 <= k < |s| ==> ForField(Split(s, b).value, k) == ForField(Split(s, c).value, k)
    requires UnknownBytes(Split(s, b).value) == UnknownBytes(Split(s, c).value)
    ensures Same(Decode(discard, s, b, at, x), Decode(discard, s, c, at', x))
  {
    hide Decode, Lex, Apply, Replay;
    DecodeIsFold(discard, s, b, at, x);
    DecodeIsFold(discard, s, c, at', x);
    var rs, ts := Split(s, b).value, Split(s, c).value;
    ApplyAllFieldByField(discard, s, rs, x);
    ApplyAllFieldByField(discard, s, ts, x);
    forall k | 0 <= k < |s|
      ensures ReplayField(discard, s[k], rs, k, x.fields[k]) == ReplayField(discard, s[k], ts, k, x.fields[k])
    {
      assert ForField(rs, k) == ForField(ts, k);
    }
    var p, q := ApplyAll(discard, s, rs, x), ApplyAll(discard, s, ts, x);
    if p.Ok? && q.Ok? {
      assert p.value.fields == q.value.fields;
    }
  }

  lemma {:induction false} SplitConcat(s: Schema, b: Bytes, c: Bytes)
    requires Split(s, b).Some? && Split(s, c).Some?
    ensures Split(s, b + c) == Some(Split(s, b).value + Split(s, c).value)
    decreases |b|
  {
    hide Lex;
    if b == [] {
      assert b + c == c;
      assert [] + Split(s, c).value == Split(s, c).value;
    } else {
      var l := Lex(s, b, 0).value;
      assert (b + c)[..l.n] == b[..l.n];
      LexLocal(s, b, 0, b + c, 0);
      assert (b + c)[l.n..] == b[l.n..] + c;
      SplitConcat(s, b[l.n..], c);
      Associative([l.rec], Split(s, b[l.n..]).value, Split(s, c).value);
    }
  }

  lemma {:induction false} ForFieldConcat(rs: seq<Record>, ts: seq<Record>, k: nat)
    ensures ForField(rs + ts, k) == ForField(rs, k) + ForField(ts, k)
  {
    if rs == [] {
      assert rs + ts == ts;
      assert [] + ForField(ts, k) == ForField(ts, k);
    } else {
      assert (rs + ts)[1..] == rs[1..] + ts;
      ForFieldConcat(rs[1..], ts, k);
      Associative(if rs[0].Slot() == Some(k) then [rs[0]] else [], ForField(rs[1..], k), ForField(ts, k));
    }
  }

  lemma {:induction false} UnknownBytesConcat(rs: seq<Record>, ts: seq<Record>)
    ensures UnknownBytes(rs + ts) == UnknownBytes(rs) + UnknownBytes(ts)
  {
    if rs == [] {
      assert rs + ts == ts;
      assert [] + UnknownBytes(ts) == UnknownBytes(ts);
    } else {
      assert (rs + ts)[1..] == rs[1..] + ts;
      UnknownBytesConcat(rs[1..], ts);
      Associative(if rs[0].Unknown? then rs[0].raw else [], UnknownBytes(rs[1..]), UnknownBytes(ts));
    }
  }

  lemma Associative<T>(a: seq<T>, b: seq<T>, c: seq<T>)
    ensures a + (b + c) == a + b + c
  {
  }

  /** Two records alone: at most one of them is for field `k`, or unknown. */
  lemma SwapPair(q: Record, r: Record, k: nat)
    requires q.Slot() != r.Slot()
    ensures ForField([q, r], k) == ForField([r, q], k)
    ensures UnknownBytes([q, r]) == UnknownBytes([r, q])
  {
    OneRecordOnly(q, k);
    OneRecordOnly(r, k);
    assert [q] + [r] == [q, r] && [r] + [q] == [r, q];
    ForFieldConcat([q], [r], k);
    ForFieldConcat([r], [q], k);
    UnknownBytesConcat([q], [r]);
    UnknownBytesConcat([r], [q]);
    hide ForField, UnknownBytes;
  }

  lemma OneRecordOnly(q: Record, k: nat)
    ensures ForField([q], k) == if q.Slot() == Some(k) then [q] else []
    ensures UnknownBytes([q]) == if q.Unknown? then q.raw else []
  {
    assert [q][1..] == [];
  }

  lemma SwapInRecords(rs: seq<Record>, q: Record, r: Record, ts: seq<Record>, k: nat)
    requires q.Slot() != r.Slot()
    ensures ForField(rs + [q, r] + ts, k) == ForField(rs + [r, q] + ts, k)
    ensures UnknownBytes(rs + [q, r] + ts) == UnknownBytes(rs + [r, q] + ts)
  {
    hide ForField, UnknownBytes;
    SwapPair(q, r, k);
    ForFieldConcat(rs, [q, r], k);
    ForFieldConcat(rs, [r, q], k);
    ForFieldConcat(rs + [q, r], ts, k);
    ForFieldConcat(rs + [r, q], ts, k);
    UnknownBytesConcat(rs, [q, r]);
    UnknownBytesConcat(rs, [r, q]);
    UnknownBytesConcat(rs + [q, r], ts);
    UnknownBytesConcat(rs + [r, q], ts);
  }

  /** Two adjacent records for different fields, or one known and one unknown, swap. */
  lemma SwapAdjacent(discard: bool, s: Schema, pre: Bytes, b: Bytes, c: Bytes, post: Bytes,
    q: Record, r: Record, x: Message)
    requires |x.fields| == |s|
    requires Split(s, pre).Some? && Split(s, post).Some?
    requires Split(s, b) == Some([q]) && Split(s, c) == Some([r]) && q.Slot() != r.Slot()
    ensures Same(Decode(discard, s, pre + (b + c) + post, 0, x), Decode(discard, s, pre + (c + b) + post, 0, x))
  {
    hide Split, Decode;
    SplitConcat(s, b, c);
    SplitConcat(s, c, b);
    SplitConcat(s, pre, b + c);
    SplitConcat(s, pre, c + b);
    SplitConcat(s, pre + (b + c), post);
    SplitConcat(s, pre + (c + b), post);
    var rs, ts := Split(s, pre).value, Split(s, post).value;
    assert [q] + [r] == [q, r] && [r] + [q] == [r, q];
    forall k: nat
      ensures ForField(rs + [q, r] + ts, k) == ForField(rs + [r, q] + ts, k)
    {
      SwapInRecords(rs, q, r, ts, k);
    }
    SwapInRecords(rs, q, r, ts, 0);
    OrderIndependent(discard, s, pre + (b + c) + post, pre + (c + b) + post, 0, 0, x);
  }

  // ------------------------------------------------- repeated singular sub-messages

  /** A singular sub-message that comes in two parts is one sub-message of the joined
      parts: the second is decoded into the first. */
  lemma SubMessageInParts(discard: bool, s: Schema, k: nat, b: Bytes, c: Bytes, x: Message)
    requires k < |s| == |x.fields| && s[k].KMessage?
    requires Apply(discard, s, Payload(k, b), x).Ok?
    ensures Same(Apply(discard, s, Payload(k, b + c), x),
                 Apply(discard, s, Payload(k, c), Apply(discard, s, Payload(k, b), x).value))
  {
    hide Decode;
    var t := s[k].sub;
    var m := SubMessage(t, x.fields[k]);
    DecodeTwice(discard, t, b, c, m);
    var y := Apply(discard, s, Payload(k, b), x).value;
    assert SubMessage(t, y.fields[k]) == Decode(discard, t, b, 0, m).value;
    var whole := Decode(discard, t, b + c, 0, m);
    if whole.Ok? {
      var g := FMessage(Some(whole.value));
      assert y.fields[k := g] == x.fields[k := g];
    }
  }

  // --------------------------------------------------------- discarded records

  /** A message without its unknown records, at every level. */
  function Erase(x: Message): Message
    decreases x
  {
    Message(seq(|x.fields|, k requires 0 <= k < |x.fields| => EraseField(x.fields[k])), [])
  }

  function EraseField(f: Field): Field
    decreases f
  {
    match f
    case FMessage(Some(m)) => FMessage(Some(Erase(m)))
    case FMessages(ms) => FMessages(seq(|ms|, i requires 0 <= i < |ms| => Erase(ms[i])))
    case _ => f
  }

  function EraseResult(r: Result<Message>): Result<Message> {
    var x :- r;
    Ok(Erase(x))
  }

  function EraseFieldResult(r: Result<Field>): Result<Field> {
    var f :- r;
    Ok(EraseField(f))
  }

  lemma EraseEmpty(s: Schema)
    ensures Erase(Empty(s)) == Empty(s)
  {
    forall k | 0 <= k < |s|
      ensures EraseField(Empty(s).fields[k]) == Empty(s).fields[k]
    {
      match s[k]
      case KMessages(_) =>
        assert EraseField(FMessages([])).ms == [];
      case _ =>
    }
    assert Erase(Empty(s)).fields == Empty(s).fields;
  }

  lemma EraseSet(x: Message, k: nat, f: Field)
    ensures Erase(x.Set(k, f)) == Erase(x).Set(k, EraseField(f))
    ensures Erase(x).Get(k) == EraseField(x.Get(k))
  {
  }

  /** Decoding with DiscardUnknown is decoding without it and erasing the unknown
      records of every level afterwards; both fail together, with the same error. */
  lemma {:induction false} DiscardIsErasure(s: Schema, b: Bytes, at: nat, x: Message)
    ensures Decode(true, s, b, at, Erase(x)) == EraseResult(Decode(false, s, b, at, x))
    decreases |b|, 0
  {
    hide Lex, Apply, Erase;
    if b != [] && Lex(s, b, at).Ok? {
      var l := Lex(s, b, at).value;
      ApplyErasure(s, l.rec, x);
      if Apply(false, s, l.rec, x).Ok? {
        DiscardIsErasure(s, b[l.n..], at + l.n, Apply(false, s, l.rec, x).value);
      }
    }
  }

  lemma {:induction false} ApplyErasure(s: Schema, rec: Record, x: Message)
    ensures Apply(true, s, rec, Erase(x)) == EraseResult(Apply(false, s, rec, x))
    decreases if rec.Payload? then |rec.bytes| else 0, 2
  {
    hide Update, EraseField;
    if rec.Unknown? {
      assert Erase(x.AddUnknown(rec.raw)) == Erase(x);
    } else if rec.k < |s| {
      var f := x.Get(rec.k);
      UpdateErasure(s[rec.k], rec, f);
      EraseSet(x, rec.k, f);
      if Update(false, s[rec.k], rec, f).Ok? {
        EraseSet(x, rec.k, Update(false, s[rec.k], rec, f).value);
      }
    }
  }

  lemma {:induction false} UpdateErasure(kind: Kind, rec: Record, f: Field)
    requires !rec.Unknown?
    ensures Update(true, kind, rec, EraseField(f)) == EraseFieldResult(Update(false, kind, rec, f))
    decreases if rec.Payload? then |rec.bytes| else 0, 1
  {
    hide Decode, Erase;
    if rec.Payload? {
      match kind
      case KMessage(t) =>
        EraseEmpty(t);
        DiscardIsErasure(t, rec.bytes, 0, SubMessage(t, f));
      case KMessages(t) =>
        EraseEmpty(t);
        DiscardIsErasure(t, rec.bytes, 0, Empty(t));
        if Decode(false, t, rec.bytes, 0, Empty(t)).Ok? {
          var m := Decode(false, t, rec.bytes, 0, Empty(t)).value;
          var ms := Elements(f);
          assert EraseField(FMessages(ms)).ms + [Erase(m)] == EraseField(FMessages(ms + [m])).ms;
          assert Elements(EraseField(f)) == EraseField(FMessages(ms)).ms;
        }
      case _ =>
    }
  }
}
