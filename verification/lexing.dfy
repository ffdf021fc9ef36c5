/** One record: reading it depends on its bytes alone, and its tag decides which branch of
    the decoding loop takes it. */
module Lexing {
  import opened Wire
  import opened WireLaws
  import opened Codec

  /** `c` starts with the first `n` bytes of `b`. */
  ghost predicate SameFront(b: Bytes, c: Bytes, n: nat) {
    n <= |b| && n <= |c| && c[..n] == b[..n]
  }

  lemma SameFrontShorter(b: Bytes, c: Bytes, n: nat, m: nat)
    requires SameFront(b, c, n) && m <= n
    ensures SameFront(b, c, m)
  {
    assert c[..m] == c[..n][..m] == b[..n][..m] == b[..m];
  }

  lemma HeaderLocal(b: Bytes, c: Bytes)
    requires ReadHeader(b).Ok? && SameFront(b, c, ReadHeader(b).value.n)
    ensures ReadHeader(c) == ReadHeader(b)
  {
    hide ReadVarint;
    ReadVarintLocal(b, c);
  }

  lemma KnownLocal(kind: Kind, b: Bytes, at: nat, c: Bytes, at': nat, h: Header)
    requires 1 <= h.num && h.n <= |b| && h.n <= |c|
    requires ReadKnown(kind, b, at, h).Ok? && SameFront(b, c, ReadKnown(kind, b, at, h).value.n)
    ensures ReadKnown(kind, c, at', h) == ReadKnown(kind, b, at, h)
  {
    hide ReadVarint;
    var l := ReadKnown(kind, b, at, h).value;
    ReadAtLocal(b, c, l.n, h.n);
    if !kind.IsScalar() {
      var span := ReadSpan(b, at, h.n).value;
      assert ReadSpan(c, at', h.n) == Ok(span);
      assert c[span.from..span.end] == c[..l.n][span.from..span.end]
          == b[..l.n][span.from..span.end] == b[span.from..span.end];
    }
  }

  lemma UnknownLocal(b: Bytes, at: nat, c: Bytes, at': nat)
    requires ReadUnknown(b, at).Ok? && SameFront(b, c, ReadUnknown(b, at).value.n)
    ensures ReadUnknown(c, at') == ReadUnknown(b, at)
  {
    SkipLocal(b, c, 0, 0);
  }

  /** A record reads the same wherever it stands and whatever follows it. */
  lemma LexLocal(s: Schema, b: Bytes, at: nat, c: Bytes, at': nat)
    requires Lex(s, b, at).Ok? && SameFront(b, c, Lex(s, b, at).value.n)
    ensures Lex(s, c, at') == Lex(s, b, at)
  {
    hide ReadHeader, ReadKnown, ReadUnknown;
    var l := Lex(s, b, at).value;
    var h := ReadHeader(b).value;
    HeaderWithinRecord(s, b, at);
    SameFrontShorter(b, c, l.n, h.n);
    HeaderLocal(b, c);
    if Knows(s, h.num) {
      KnownLocal(s[h.num - 1], b, at, c, at', h);
    } else {
      UnknownLocal(b, at, c, at');
    }
  }

  lemma HeaderWithinRecord(s: Schema, b: Bytes, at: nat)
    requires Lex(s, b, at).Ok?
    ensures ReadHeader(b).Ok? && ReadHeader(b).value.n <= Lex(s, b, at).value.n
  {
    hide ReadVarint;
    if !Knows(s, ReadHeader(b).value.num) {
      SkipPastTag(b);
    }
  }

  /** A skipped record is at least as long as its tag. */
  lemma SkipPastTag(b: Bytes)
    requires Skip(b).Ok?
    ensures ReadVarint(b).Ok? && ReadVarint(b).value.n <= Skip(b).value
  {
    hide ReadVarint;
    assert b[0..] == b;
    var one := SkipOne(b, 0, 0).value;
    assert ReadVarint(b).value.n <= one.end;
  }

  /** The field number that the decoder sees in a tag: 32 bits of it are kept. */
  function TagNumber(v: nat): nat {
    v / 8 % 0x1_0000_0000
  }

  /** A tag that starts a record: no end of a group, and its number is a positive int32. */
  predicate StartsRecord(v: nat) {
    v % 8 != 4 && 1 <= TagNumber(v) < 0x8000_0000
  }

  /** Which tags take which branch of the decoding loop, for every tag that can be read. */
  lemma BranchOfTag(s: Schema, b: Bytes, at: nat)
    requires ReadVarint(b).Ok?
    ensures var tag := ReadVarint(b).value;
            var h := Header(TagNumber(tag.v), tag.v % 8, tag.n);
            Lex(s, b, at) ==
              if tag.v % 8 == 4 then Err(EndGroup)
              else if !StartsRecord(tag.v) then Err(IllegalTag(ToInt32(tag.v / 8), tag.v))
              else if Knows(s, h.num) then ReadKnown(s[h.num - 1], b, at, h)
              else ReadUnknown(b, at)
  {
    hide ReadVarint, ReadKnown, ReadUnknown;
  }

  /** A tag is accepted exactly when the low 32 bits of its number are a positive int32,
      and stands for the number it encodes exactly when that number is one. */
  lemma AcceptedTags(v: nat, rest: Bytes)
    requires v < UINT64
    ensures ReadHeader(Varint(v) + rest).Ok? <==> StartsRecord(v)
    ensures StartsRecord(v) ==> ReadHeader(Varint(v) + rest) == Ok(Header(TagNumber(v), v % 8, Sov(v)))
    ensures (ReadHeader(Varint(v) + rest) == Ok(Header(v / 8, v % 8, Sov(v))))
        <==> (v % 8 != 4 && 1 <= v / 8 < 0x8000_0000)
  {
    hide ReadVarint, Varint, Sov;
    VarintRoundTrip(v, rest);
  }

  /** A record that lies whole in the buffer is kept verbatim exactly when its tag starts
      a record and the number that the decoder sees is none of the schema's. */
  lemma KeptVerbatim(s: Schema, b: Bytes, at: nat)
    requires Skip(b).Ok? && Skip(b).value <= |b|
    ensures ReadVarint(b).Ok?
    ensures var v, n := ReadVarint(b).value.v, Skip(b).value;
            (Lex(s, b, at) == Ok(Lexeme(Unknown(b[..n]), n))) <==> (StartsRecord(v) && !Knows(s, TagNumber(v)))
  {
    hide ReadVarint, ReadKnown, Skip;
    SkipPastTag(b);
    BranchOfTag(s, b, at);
  }

  /** An input on which a number that the schema does not have is read as one it has:
      a tag whose number exceeds a field's by a multiple of 2^32. */
  lemma AliasedFieldNumber(num: nat, m: nat, wireType: nat, rest: Bytes)
    requires 1 <= num < 0x8000_0000 && wireType < 8 && wireType != 4
    requires 8 * (num + m * 0x1_0000_0000) + wireType < UINT64
    ensures var tag := 8 * (num + m * 0x1_0000_0000) + wireType;
            ReadHeader(Varint(tag) + rest) == Ok(Header(num, wireType, Sov(tag)))
  {
    hide Varint, Sov, ReadHeader;
    var long := num + m * 0x1_0000_0000;
    TagParts(long, wireType);
    assert long % 0x1_0000_0000 == num;
    AcceptedTags(8 * long + wireType, rest);
  }

  // ------------------------------------------------ what a record is, or why not

  /** The tag of the record is the first `i` bytes of `b`, and starts a record. */
  predicate TagIs(b: Bytes, i: nat, num: nat, wireType: nat) {
    && 0 < i <= |b| && IsVarint(b[0..i])
    && StartsRecord(Uint64(b[0..i])) && TagNumber(Uint64(b[0..i])) == num && Uint64(b[0..i]) % 8 == wireType
  }

  lemma TagIsRead(s: Schema, b: Bytes, at: nat, i: nat, num: nat, wireType: nat)
    requires TagIs(b, i, num, wireType)
    ensures Lex(s, b, at) == if Knows(s, num) then ReadKnown(s[num - 1], b, at, Header(num, wireType, i))
                             else ReadUnknown(b, at)
  {
    hide ReadVarint, IsVarint, ReadKnown, ReadUnknown, Uint64;
    VarintReads(b, 0, i);
    assert b[0..] == b;
    BranchOfTag(s, b, at);
  }

  /** A known field that is met with another wire type than its own. */
  lemma WrongWireTypeReported(s: Schema, b: Bytes, at: nat, i: nat, num: nat, wireType: nat)
    requires TagIs(b, i, num, wireType) && Knows(s, num)
    requires wireType != if s[num - 1].KUint64? || s[num - 1].KBool? then 0 else 2
    ensures Lex(s, b, at) == Err(WrongWireType(wireType, num))
  {
    hide Lex, ReadVarint, IsVarint, Uint64, TagIs;
    TagIsRead(s, b, at, i, num, wireType);
  }

  /** A known field whose value or length prefix is no varint. */
  lemma NoVarintReported(s: Schema, b: Bytes, at: nat, i: nat, num: nat, wireType: nat, e: Error)
    requires TagIs(b, i, num, wireType) && Knows(s, num) && NoVarint(b, i, e)
    requires wireType == if s[num - 1].KUint64? || s[num - 1].KBool? then 0 else 2
    ensures Lex(s, b, at) == Err(e)
  {
    hide Lex, ReadVarint, IsVarint, Uint64, NoVarint;
    TagIsRead(s, b, at, i, num, wireType);
    NoVarintFails(b, i, e);
  }

  /** A varint field: the value is the varint behind the tag. */
  lemma ScalarRead(s: Schema, b: Bytes, at: nat, i: nat, j: nat, num: nat)
    requires TagIs(b, i, num, 0) && Knows(s, num) && (s[num - 1].KUint64? || s[num - 1].KBool?)
    requires i < j <= |b| && IsVarint(b[i..j])
    ensures Lex(s, b, at) == Ok(Lexeme(Scalar(num - 1, Groups(b[i..j]) % 0x1_0000_0000_0000_0000), j))
  {
    hide Lex, ReadVarint, IsVarint, Groups;
    TagIsRead(s, b, at, i, num, 0);
    VarintReads(b, i, j);
  }

  /** A length-delimited field, its length prefix the bytes `i..j`: the payload is read
      exactly when it ends within the input. Otherwise the error is invalid length exactly
      when its end, as an index of the buffer, is no Go int, and unexpected end if it is. */
  lemma PayloadRead(s: Schema, b: Bytes, at: nat, i: nat, j: nat, num: nat)
    requires TagIs(b, i, num, 2) && Knows(s, num) && !s[num - 1].KUint64? && !s[num - 1].KBool?
    requires i < j <= |b| && IsVarint(b[i..j])
    ensures var end := j + Groups(b[i..j]) % 0x1_0000_0000_0000_0000;
            Lex(s, b, at) ==
              if end <= |b| then Ok(Lexeme(Payload(num - 1, b[j..end]), end))
              else if at + end >= 0x8000_0000_0000_0000 then Err(InvalidLength)
              else Err(UnexpectedEOF)
  {
    hide Lex, ReadVarint, IsVarint, Groups;
    TagIsRead(s, b, at, i, num, 2);
    VarintReads(b, i, j);
  }

  /** A record of another field: kept if it ends within the input, and otherwise the same
      two errors; an error of skipping is reported as it is. */
  lemma UnknownRead(s: Schema, b: Bytes, at: nat, i: nat, num: nat, wireType: nat)
    requires TagIs(b, i, num, wireType) && !Knows(s, num)
    ensures Lex(s, b, at) ==
            match Skip(b)
            case Err(e) => Err(e)
            case Ok(n) =>
              if n <= |b| then Ok(Lexeme(Unknown(b[..n]), n))
              else if at + n >= 0x8000_0000_0000_0000 then Err(InvalidLength)
              else Err(UnexpectedEOF)
  {
    hide Lex, Skip, TagIs;
    TagIsRead(s, b, at, i, num, wireType);
  }

  /** No tag can be read. */
  lemma NoTagReported(s: Schema, b: Bytes, at: nat, e: Error)
    requires NoVarint(b, 0, e)
    ensures Lex(s, b, at) == Err(e)
  {
    hide NoVarint, ReadVarint;
    assert b[0..] == b;
    NoVarintFails(b, 0, e);
  }

  /** The end of a group that was not opened comes before any look at the number. */
  lemma EndGroupReported(s: Schema, b: Bytes, at: nat, i: nat)
    requires 0 < i <= |b| && IsVarint(b[0..i]) && Uint64(b[0..i]) % 8 == 4
    ensures Lex(s, b, at) == Err(EndGroup)
  {
    hide Lex, ReadVarint, IsVarint, Uint64;
    assert b[0..] == b;
    VarintReads(b, 0, i);
    BranchOfTag(s, b, at);
  }

  /** The number, as the int32 that is reported with the whole tag, is not positive. */
  lemma IllegalTagReported(s: Schema, b: Bytes, at: nat, i: nat, num: int)
    requires 0 < i <= |b| && IsVarint(b[0..i]) && Uint64(b[0..i]) % 8 != 4
    requires -0x8000_0000 <= num <= 0 && (num - Uint64(b[0..i]) / 8) % 0x1_0000_0000 == 0
    ensures Lex(s, b, at) == Err(IllegalTag(num, Uint64(b[0..i])))
  {
    hide Lex, ReadVarint, IsVarint, Uint64, ToInt32;
    assert b[0..] == b;
    VarintReads(b, 0, i);
    BranchOfTag(s, b, at);
    GoInt32(Uint64(b[0..i]) / 8, num);
    NotPositive(Uint64(b[0..i]), num);
  }

  lemma NotPositive(v: nat, num: int)
    requires -0x8000_0000 <= num <= 0 && (num - v / 8) % 0x1_0000_0000 == 0
    ensures !StartsRecord(v)
  {
  }
}
