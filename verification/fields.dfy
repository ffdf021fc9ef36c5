/** What an input holds, field number by field number, without a schema: the terms in
    which each class states which variable `unmarshal` sets from which number. */
module Fields {
  import opened Wire
  import opened WireLaws
  import opened Codec
  import opened Lexing
  import opened Decoding
  import opened Compatibility
  import opened Records

  // ---------------------------------------------------------------- reading

  /** The number of bytes of the record at the front of `b`; 0 if it is not whole. */
  function FrontLength(b: Bytes): (n: nat)
    ensures n <= |b|
  {
    if Skip(b).Ok? && Skip(b).value <= |b| then Skip(b).value else 0
  }

  /** The field number that the decoder sees at the front of `b`. */
  function FrontNumber(b: Bytes): nat {
    if ReadVarint(b).Ok? then TagNumber(ReadVarint(b).value.v) else 0
  }

  /** What a record carries behind its tag and, if it has one, its length prefix. */
  function Content(raw: Bytes): Bytes {
    if ReadVarint(raw).Err? then []
    else
      var tag := ReadVarint(raw).value;
      var rest := raw[tag.n..];
      if tag.v % 8 == 2 && ReadVarint(rest).Ok? then rest[ReadVarint(rest).value.n..] else rest
  }

  /** The contents of the records of `b` with field number `num`, in order. */
  function Contents(b: Bytes, num: nat): seq<Bytes> {
    var n := FrontLength(b);
    if n == 0 then []
    else (if FrontNumber(b) == num then [Content(b[..n])] else []) + Contents(b[n..], num)
  }

  /** The records of `b` with other field numbers than these, joined. */
  function Others(b: Bytes, nums: set<nat>): Bytes {
    var n := FrontLength(b);
    if n == 0 then []
    else (if FrontNumber(b) in nums then [] else b[..n]) + Others(b[n..], nums)
  }

  /** The last of some contents, or what was there before. */
  function Latest(cs: seq<Bytes>, before: Bytes): Bytes {
    if cs == [] then before else cs[|cs| - 1]
  }

  /** The same for a varint field, modulo 2^64. */
  function LatestVarint(cs: seq<Bytes>, before: nat): nat {
    if cs == [] then before else Groups(cs[|cs| - 1]) % 0x1_0000_0000_0000_0000
  }

  function Join(cs: seq<Bytes>): Bytes {
    if cs == [] then [] else cs[0] + Join(cs[1..])
  }

  // ------------------------------------------------------------ in terms of trees

  /** What a record tree carries. */
  function Carried(t: Tree): Bytes {
    match t
    case Delimited(_, _, b) => b
    case _ => Body(t)
  }

  /** The front of an input that starts with a record. */
  lemma FrontOfTree(t: Tree, rest: Bytes)
    requires WellFormed(t) && |Print(t) + rest| < INT_LIMIT
    ensures |Print(t)| >= 1 && FrontLength(Print(t) + rest) == |Print(t)|
    ensures FrontNumber(Print(t) + rest) == NumberOf(t)
    ensures (Print(t) + rest)[..|Print(t)|] == Print(t) && (Print(t) + rest)[|Print(t)|..] == rest
  {
    hide Skip, ReadVarint, WellFormed, Print, Uint64;
    PrintNotEmpty(t);
    SkipReadsOneRecord(t, rest);
    TagOfTree(t, rest);
  }

  lemma ContentOfTree(t: Tree)
    requires WellFormed(t)
    ensures Content(Print(t)) == Carried(t)
  {
    hide ReadVarint, IsVarint, Uint64, PrintAll;
    var b, i := Print(t), |t.tag|;
    VarintNotEmpty(t.tag);
    assert b[0..i] == t.tag && b[i..] == Body(t) && b[0..] == b;
    VarintReads(b, 0, i);
    match t
    case Delimited(_, prefix, c) =>
      var j := i + |prefix|;
      assert b[i..j] == Body(t)[..|prefix|] == prefix;
      VarintNotEmpty(prefix);
      VarintReads(b, i, j);
    case _ =>
  }

  /** Of a sequence of records, those of a number carry its contents, in order; the rest
      are the others. */
  lemma ContentsOfTrees(ts: seq<Tree>, num: nat, nums: set<nat>)
    requires forall i :: 0 <= i < |ts| ==> WellFormed(ts[i])
    requires |PrintAll(ts)| < INT_LIMIT
    ensures Contents(PrintAll(ts), num)
         == if ts == [] then []
            else (if NumberOf(ts[0]) == num then [Carried(ts[0])] else []) + Contents(PrintAll(ts[1..]), num)
    ensures Others(PrintAll(ts), nums)
         == if ts == [] then []
            else (if NumberOf(ts[0]) in nums then [] else Print(ts[0])) + Others(PrintAll(ts[1..]), nums)
  {
    hide Print, WellFormed, FrontLength, FrontNumber, Content, Carried, NumberOf;
    if ts == [] {
      NothingInFront();
    } else {
      FrontOfTree(ts[0], PrintAll(ts[1..]));
      ContentOfTree(ts[0]);
    }
  }

  /** An input that is one record. */
  lemma OneTree(t: Tree, num: nat, nums: set<nat>)
    requires WellFormed(t) && |Print(t)| < INT_LIMIT
    ensures Contents(Print(t), num) == if NumberOf(t) == num then [Carried(t)] else []
    ensures Others(Print(t), nums) == if NumberOf(t) in nums then [] else Print(t)
  {
    hide Print, WellFormed, Contents, Others, Carried, NumberOf;
    OnlyTree(t);
    ContentsOfTrees([t], num, nums);
    ContentsOfTrees([], num, nums);
    assert [t][1..] == [];
    assert Print(t) + [] == Print(t);
  }

  lemma OnlyTree(t: Tree)
    ensures PrintAll([t]) == Print(t)
  {
    hide Print;
    assert Print(t) + [] == Print(t);
  }

  lemma NothingInFront()
    ensures FrontLength([]) == 0
  {
  }

  // ---------------------------------------------------- what decoding does to a field

  /** The record that the decoder reads is the one in front, with its number and content. */
  lemma FrontIsRead(s: Schema, b: Bytes, at: nat)
    requires |b| < INT_LIMIT && Lex(s, b, at).Ok?
    ensures var l := Lex(s, b, at).value;
            && FrontLength(b) == l.n
            && (l.rec.Unknown? ==> !Knows(s, FrontNumber(b)))
            && (!l.rec.Unknown? ==> FrontNumber(b) == l.rec.k + 1)
            && (l.rec.Payload? ==> Content(b[..l.n]) == l.rec.bytes)
            && (l.rec.Scalar? ==> Uint64(Content(b[..l.n])) == l.rec.v)
  {
    hide ReadVarint, Skip, ReadKnown, ReadUnknown, Content, Uint64;
    HeaderWithinRecord(s, b, at);
    var tag := ReadVarint(b).value;
    BranchOfTag(s, b, at);
    if Knows(s, FrontNumber(b)) {
      SkipKnown(s[FrontNumber(b) - 1], b, at);
      KnownContent(s[FrontNumber(b) - 1], b, at, Header(FrontNumber(b), tag.v % 8, tag.n));
    } else {
      UnknownIsWhole(b, at);
    }
  }

  lemma UnknownIsWhole(b: Bytes, at: nat)
    requires ReadUnknown(b, at).Ok?
    ensures Skip(b) == Ok(ReadUnknown(b, at).value.n)
  {
    hide Skip;
  }

  lemma KnownContent(kind: Kind, b: Bytes, at: nat, h: Header)
    requires ReadHeader(b) == Ok(h) && ReadKnown(kind, b, at, h).Ok?
    ensures var l := ReadKnown(kind, b, at, h).value;
            && (l.rec.Payload? ==> Content(b[..l.n]) == l.rec.bytes)
            && (l.rec.Scalar? ==> Uint64(Content(b[..l.n])) == l.rec.v)
  {
    hide ReadVarint, Uint64;
    var l := ReadKnown(kind, b, at, h).value;
    var raw := b[..l.n];
    var x := ReadVarint(b[h.n..]).value;
    ReadAtLocal(b, raw, l.n, 0);
    ReadAtLocal(b, raw, l.n, h.n);
    assert b[0..] == b && raw[0..] == raw;
    ReadsVarints(b, h.n);
    assert raw[h.n..] == b[h.n..l.n];
    assert raw[h.n..][x.n..] == b[h.n + x.n..l.n];
  }

  /** What a field of value `f` becomes when its records carry `cs`, in this order: the
      last one counts for a single value, a list grows by all of them, and the parts of a
      sub-message are decoded into it as one. */
  ghost predicate FieldAfter(discard: bool, kind: Kind, f: Field, cs: seq<Bytes>, g: Field) {
    if cs == [] then g == f
    else
      match kind
      case KUnused => g == f
      case KBytes => g == FBytes(cs[|cs| - 1])
      case KRepeated => g == FRepeated(Strings(f) + cs)
      case KUint64 => g == FUint64(Uint64(cs[|cs| - 1]))
      case KBool => g == FUint64(if Uint64(cs[|cs| - 1]) != 0 then 1 else 0)
      case KMessage(t) =>
        g.FMessage? && g.m.Some? && Decode(discard, t, Join(cs), 0, SubMessage(t, f)) == Ok(g.m.value)
      case KMessages(t) => g.FMessages? && ListAfter(discard, t, Elements(f), cs, g.ms)
  }

  /** The new elements are decoded from one content each. */
  ghost predicate ListAfter(discard: bool, t: Schema, ms: seq<Message>, cs: seq<Bytes>, ns: seq<Message>) {
    && |ns| == |ms| + |cs| && ns[..|ms|] == ms
    && forall i :: 0 <= i < |cs| ==> Decode(discard, t, cs[i], 0, Empty(t)) == Ok(ns[|ms| + i])
  }

  lemma FieldAfterFirst(discard: bool, kind: Kind, rec: Record, f: Field, f1: Field, c: Bytes, cs: seq<Bytes>, g: Field)
    requires !rec.Unknown? && rec.Scalar? == kind.IsScalar() && Update(discard, kind, rec, f) == Ok(f1)
    requires if rec.Scalar? then Uint64(c) == rec.v else c == rec.bytes
    requires FieldAfter(discard, kind, f1, cs, g)
    ensures FieldAfter(discard, kind, f, [c] + cs, g)
  {
    hide Decode, Uint64;
    var all := [c] + cs;
    match kind
    case KMessage(t) =>
      assert all[1..] == cs;
      assert Join([]) == [] && c + [] == c;
      DecodeTwice(discard, t, c, Join(cs), SubMessage(t, f));
    case KMessages(t) =>
      ListAfterFirst(discard, t, Elements(f), c, f1.ms[|Elements(f)|], cs, g.ms);
    case _ =>
  }

  lemma ListAfterFirst(discard: bool, t: Schema, ms: seq<Message>, c: Bytes, m: Message, cs: seq<Bytes>,
    ns: seq<Message>)
    requires Decode(discard, t, c, 0, Empty(t)) == Ok(m) && ListAfter(discard, t, ms + [m], cs, ns)
    ensures ListAfter(discard, t, ms, [c] + cs, ns)
  {
    hide Decode, Empty;
    var all := [c] + cs;
    assert ns[..|ms|] == ns[..|ms| + 1][..|ms|] == ms;
    assert ns[|ms|] == ns[..|ms| + 1][|ms|] == m;
    forall i | 0 <= i < |all|
      ensures Decode(discard, t, all[i], 0, Empty(t)) == Ok(ns[|ms| + i])
    {
      if i > 0 {
        assert all[i] == cs[i - 1] && ns[|ms| + i] == ns[|ms + [m]| + (i - 1)];
      }
    }
  }

  /** Decoding, field by field: what becomes of a field depends on the contents of the
      records with its number alone. */
  lemma {:induction false} FieldFromContents(discard: bool, s: Schema, b: Bytes, at: nat, x: Message, k: nat)
    requires |b| < INT_LIMIT && |x.fields| == |s| && Knows(s, k + 1)
    requires Decode(discard, s, b, at, x).Ok?
    ensures var y := Decode(discard, s, b, at, x).value;
            |y.fields| == |s| && FieldAfter(discard, s[k], x.fields[k], Contents(b, k + 1), y.fields[k])
    decreases |b|
  {
    hide Lex, Apply, FieldAfter, FrontLength, FrontNumber, Content, Update;
    if b == [] {
      NothingInFront();
      NothingAfter(discard, s[k], x.fields[k]);
    } else {
      var l := Lex(s, b, at).value;
      var x1 := Apply(discard, s, l.rec, x).value;
      FrontIsRead(s, b, at);
      FieldsStay(discard, s, l.rec, x);
      FieldFromContents(discard, s, b[l.n..], at + l.n, x1, k);
      FieldFromFirst(discard, s, b, at, x, k, Contents(b[l.n..], k + 1), Decode(discard, s, b, at, x).value.fields[k]);
    }
  }

  lemma FieldsStay(discard: bool, s: Schema, rec: Record, x: Message)
    requires Apply(discard, s, rec, x).Ok?
    ensures |Apply(discard, s, rec, x).value.fields| == |x.fields|
  {
    hide Update;
  }

  lemma NothingAfter(discard: bool, kind: Kind, f: Field)
    ensures FieldAfter(discard, kind, f, [], f)
  {
  }

  lemma FieldFromFirst(discard: bool, s: Schema, b: Bytes, at: nat, x: Message, k: nat, cs: seq<Bytes>, g: Field)
    requires |b| < INT_LIMIT && |x.fields| == |s| && Knows(s, k + 1) && Lex(s, b, at).Ok?
    requires Apply(discard, s, Lex(s, b, at).value.rec, x).Ok?
    requires var x1 := Apply(discard, s, Lex(s, b, at).value.rec, x).value;
             |x1.fields| == |s| ==> FieldAfter(discard, s[k], x1.fields[k], cs, g)
    ensures |Apply(discard, s, Lex(s, b, at).value.rec, x).value.fields| == |s|
    ensures FieldAfter(discard, s[k], x.fields[k],
                       (if FrontNumber(b) == k + 1 then [Content(b[..Lex(s, b, at).value.n])] else []) + cs, g)
  {
    hide Lex, FieldAfter, FrontLength, FrontNumber, Content, Update, Uint64;
    var l := Lex(s, b, at).value;
    var x1 := Apply(discard, s, l.rec, x).value;
    FrontIsRead(s, b, at);
    if FrontNumber(b) == k + 1 {
      FieldAfterFirst(discard, s[k], l.rec, x.fields[k], x1.fields[k], Content(b[..l.n]), cs, g);
    } else {
      assert [] + cs == cs;
    }
  }

  lemma UnknownFromFirst(discard: bool, s: Schema, b: Bytes, at: nat, x: Message, nums: set<nat>)
    requires |b| < INT_LIMIT && Lex(s, b, at).Ok? && Apply(discard, s, Lex(s, b, at).value.rec, x).Ok?
    requires forall num: nat :: num in nums <==> Knows(s, num)
    ensures Apply(discard, s, Lex(s, b, at).value.rec, x).value.unknown
         == x.unknown + if discard || FrontNumber(b) in nums then [] else b[..Lex(s, b, at).value.n]
  {
    hide Lex, Knows, FrontLength, FrontNumber, Content, Update, Uint64;
    FrontIsRead(s, b, at);
    assert x.unknown + [] == x.unknown;
  }

  /** The unknown bytes grow by the other records, or not at all. */
  lemma {:induction false} UnknownFromOthers(discard: bool, s: Schema, b: Bytes, at: nat, x: Message, nums: set<nat>)
    requires |b| < INT_LIMIT && Decode(discard, s, b, at, x).Ok?
    requires forall num: nat :: num in nums <==> Knows(s, num)
    ensures Decode(discard, s, b, at, x).value.unknown
         == x.unknown + if discard then [] else Others(b, nums)
    decreases |b|
  {
    hide Lex, Knows, Apply, FrontLength, FrontNumber, Content;
    if b == [] {
      NothingInFront();
      assert x.unknown + [] == x.unknown;
    } else {
      var l := Lex(s, b, at).value;
      FrontIsRead(s, b, at);
      UnknownFromFirst(discard, s, b, at, x, nums);
      UnknownFromOthers(discard, s, b[l.n..], at + l.n, Apply(discard, s, l.rec, x).value, nums);
      Regroup(x.unknown, if FrontNumber(b) in nums then [] else b[..l.n], Others(b[l.n..], nums));
    }
  }

  lemma Regroup(a: Bytes, b: Bytes, c: Bytes)
    ensures a + b + c == a + (b + c) && a + [] == a
  {
  }

  // ------------------------------------- what a class variable is after `unmarshal`

  /** The last bool that was read: every value but 0 is true. */
  predicate LatestBool(cs: seq<Bytes>, before: bool) {
    if cs == [] then before else Groups(cs[|cs| - 1]) % 0x1_0000_0000_0000_0000 != 0
  }

  /** The last int64 that was read, in two's complement. */
  function LatestInt64(cs: seq<Bytes>, before: int): int {
    if cs == [] then before
    else
      var u := Groups(cs[|cs| - 1]) % 0x1_0000_0000_0000_0000;
      if u < 0x8000_0000_0000_0000 then u else u - 0x1_0000_0000_0000_0000
  }

  /** Decoding `b` into `x` gives `y`. */
  ghost predicate Decoded(discard: bool, s: Schema, b: Bytes, x: Message, y: Message) {
    |b| < INT_LIMIT && |x.fields| == |s| == |y.fields| && Decode(discard, s, b, 0, x) == Ok(y)
  }

  lemma BytesRead(discard: bool, s: Schema, b: Bytes, x: Message, y: Message, k: nat, before: Bytes, after: Bytes)
    requires k < |s| && s[k].KBytes? && Decoded(discard, s, b, x, y)
    requires x.fields[k] == FBytes(before) && y.fields[k] == FBytes(after)
    ensures after == Latest(Contents(b, k + 1), before)
  {
    hide Decode, Contents;
    FieldFromContents(discard, s, b, 0, x, k);
  }

  lemma StringsRead(discard: bool, s: Schema, b: Bytes, x: Message, y: Message, k: nat,
    before: seq<Bytes>, after: seq<Bytes>)
    requires k < |s| && s[k].KRepeated? && Decoded(discard, s, b, x, y)
    requires x.fields[k] == FRepeated(before) && y.fields[k] == FRepeated(after)
    ensures after == before + Contents(b, k + 1)
  {
    hide Decode, Contents;
    FieldFromContents(discard, s, b, 0, x, k);
  }

  lemma VarintRead(discard: bool, s: Schema, b: Bytes, x: Message, y: Message, k: nat, before: nat, after: nat)
    requires k < |s| && s[k].KUint64? && Decoded(discard, s, b, x, y)
    requires x.fields[k] == FUint64(before) && y.fields[k] == FUint64(after)
    ensures after == LatestVarint(Contents(b, k + 1), before)
  {
    hide Decode, Contents, Groups;
    FieldFromContents(discard, s, b, 0, x, k);
  }

  lemma Int64Read(discard: bool, s: Schema, b: Bytes, x: Message, y: Message, k: nat, before: int, after: int)
    requires k < |s| && s[k].KUint64? && Decoded(discard, s, b, x, y)
    requires -0x8000_0000_0000_0000 <= before < INT_LIMIT && -0x8000_0000_0000_0000 <= after < INT_LIMIT
    requires x.fields[k] == FUint64(ToUint64(before)) && y.fields[k] == FUint64(ToUint64(after))
    ensures after == LatestInt64(Contents(b, k + 1), before)
  {
    hide Decode, Contents, Groups;
    VarintRead(discard, s, b, x, y, k, ToUint64(before), ToUint64(after));
  }

  lemma BoolRead(discard: bool, s: Schema, b: Bytes, x: Message, y: Message, k: nat, before: bool, after: bool)
    requires k < |s| && s[k].KBool? && Decoded(discard, s, b, x, y)
    requires x.fields[k] == FUint64(if before then 1 else 0) && y.fields[k] == FUint64(if after then 1 else 0)
    ensures after == LatestBool(Contents(b, k + 1), before)
  {
    hide Decode, Contents, Groups;
    FieldFromContents(discard, s, b, 0, x, k);
  }

  lemma ElementsRead(discard: bool, s: Schema, b: Bytes, x: Message, y: Message, k: nat,
    before: seq<Message>, after: seq<Message>)
    requires k < |s| && s[k].KMessages? && Decoded(discard, s, b, x, y)
    requires x.fields[k] == FMessages(before) && y.fields[k] == FMessages(after)
    ensures ListAfter(discard, s[k].elem, before, Contents(b, k + 1), after)
  {
    hide Decode, Contents;
    FieldFromContents(discard, s, b, 0, x, k);
  }

  /** A sub-message: untouched, or the value of the decoded parts, joined. */
  ghost predicate MessageAfter(discard: bool, t: Schema, before: Option<Message>, cs: seq<Bytes>,
    after: Option<Message>)
  {
    if cs == [] then after == before
    else
      after.Some? &&
      Decode(discard, t, Join(cs), 0, if before.Some? then before.value else Empty(t)) == Ok(after.value)
  }

  lemma MessageRead(discard: bool, s: Schema, b: Bytes, x: Message, y: Message, k: nat,
    before: Option<Message>, after: Option<Message>)
    requires k < |s| && s[k].KMessage? && Decoded(discard, s, b, x, y)
    requires x.fields[k] == FMessage(before) && y.fields[k] == FMessage(after)
    ensures MessageAfter(discard, s[k].sub, before, Contents(b, k + 1), after)
  {
    hide Decode, Contents, Empty, Join;
    FieldFromContents(discard, s, b, 0, x, k);
  }

  lemma OthersRead(discard: bool, s: Schema, b: Bytes, x: Message, y: Message, nums: set<nat>)
    requires Decoded(discard, s, b, x, y)
    requires forall num: nat :: num in nums <==> Knows(s, num)
    ensures y.unknown == x.unknown + if discard then [] else Others(b, nums)
  {
    hide Decode, Others, Knows;
    UnknownFromOthers(discard, s, b, 0, x, nums);
  }
}
