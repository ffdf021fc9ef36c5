/** The parsing loops that every generated `unmarshal` inlines: varints accumulated by
    shift and or, tags, length guards on wrapping 64-bit ints, skipped records. */
module Reader {
  import opened Wire
  import opened Bits
  import opened Codec

  /** The varint loop. */
  method DecodeVarint(dAtA: Bytes, iNdEx: nat) returns (err: Option<Error>, v: nat, next: nat)
    requires iNdEx <= |dAtA|
    ensures match ReadVarint(dAtA[iNdEx..])
            case Err(e) => err == Some(e)
            case Ok(r) => err == None && v == r.v < UINT64 && next == iNdEx + r.n <= |dAtA|
  {
    hide Or, Shl64, Groups, ScanVarint;
    ghost var rest := dAtA[iNdEx..];
    err, v, next := None, 0, iNdEx;
    assert Groups([]) % UINT64 == 0 by { NoGroups(); }
    assert rest[..0] == [];
    var shift := 0;
    while true
      invariant iNdEx <= next <= |dAtA| && next - iNdEx <= MAX_VARINT
      invariant shift == 7 * (next - iNdEx)
      invariant v == Groups(rest[..next - iNdEx]) % UINT64
      invariant ScanVarint(rest, 0) == ScanVarint(rest, next - iNdEx)
      invariant err == None
      decreases |dAtA| - next
    {
      ScanStep(rest, next - iNdEx);
      if shift >= 64 {
        err := Some(IntOverflow);
        return;
      }
      if next >= |dAtA| {
        err := Some(UnexpectedEOF);
        return;
      }
      var b := dAtA[next];
      ghost var k := next - iNdEx;
      assert rest[k] == b && rest[..k + 1] == rest[..k] + [b];
      AccumulateGroup(rest[..k], b);
      next := next + 1;
      v := Or(v, Shl64(b % 128, shift));
      if b < 128 {
        return;
      }
      shift := shift + 7;
    }
  }

  lemma ScanStep(b: Bytes, k: nat)
    requires k <= MAX_VARINT && k <= |b|
    ensures ScanVarint(b, k) ==
            if k == MAX_VARINT then Err(IntOverflow)
            else if k == |b| then Err(UnexpectedEOF)
            else if b[k] < 128 then Ok(k + 1)
            else ScanVarint(b, k + 1)
  {
  }

  lemma NoGroups()
    ensures Groups([]) == 0
  {
  }

  /** A length prefix and its guards. With 64-bit wrapping ints the three guards accept
      exactly the lengths that lie in the buffer. */
  method ReadLength(dAtA: Bytes, iNdEx: nat, ghost preIndex: nat)
    returns (err: Option<Error>, from: nat, postIndex: nat)
    requires preIndex <= iNdEx <= |dAtA| < INT_LIMIT
    ensures match ReadSpan(dAtA[preIndex..], preIndex, iNdEx - preIndex)
            case Err(e) => err == Some(e)
            case Ok(r) => err == None && from == preIndex + r.from && postIndex == preIndex + r.end <= |dAtA|
  {
    hide ReadVarint;
    var len;
    postIndex := iNdEx;
    assert dAtA[preIndex..][iNdEx - preIndex..] == dAtA[iNdEx..];
    err, len, from := DecodeVarint(dAtA, iNdEx);
    if err.Some? {
      return;
    }
    var msglen := ToInt64(len);
    if msglen < 0 {
      err := Some(InvalidLength);
      return;
    }
    var post := AddInt64(from, msglen);
    if post < 0 {
      err := Some(InvalidLength);
      return;
    }
    if post > |dAtA| {
      err := Some(UnexpectedEOF);
      return;
    }
    postIndex := post;
  }

  // ------------------------------------------------------------- skipped records

  /** Past a varint whose value is not needed. */
  method PassVarint(dAtA: Bytes, iNdEx: nat) returns (err: Option<Error>, next: nat)
    requires iNdEx <= |dAtA|
    ensures match ReadVarint(dAtA[iNdEx..])
            case Err(e) => err == Some(e)
            case Ok(r) => err == None && next == iNdEx + r.n <= |dAtA|
  {
    hide Groups, ScanVarint;
    ghost var rest := dAtA[iNdEx..];
    err, next := None, iNdEx;
    var shift := 0;
    while true
      invariant iNdEx <= next <= |dAtA| && next - iNdEx <= MAX_VARINT
      invariant shift == 7 * (next - iNdEx)
      invariant ScanVarint(rest, 0) == ScanVarint(rest, next - iNdEx)
      invariant err == None
      decreases |dAtA| - next
    {
      ScanStep(rest, next - iNdEx);
      if shift >= 64 {
        err := Some(IntOverflow);
        return;
      }
      if next >= |dAtA| {
        err := Some(UnexpectedEOF);
        return;
      }
      next := next + 1;
      if dAtA[next - 1] < 0x80 {
        return;
      }
      shift := shift + 7;
    }
  }

  /** One pass of the skipping loop: a tag and its payload, `depth` groups being open.
      The index wraps like a Go int. */
  method SkipPass(dAtA: Bytes, iNdEx: nat, depth: nat) returns (err: Option<Error>, next: int, inner: nat)
    requires iNdEx <= |dAtA| < INT_LIMIT
    ensures match SkipOne(dAtA, iNdEx, depth)
            case Err(e) => err == Some(e)
            case Ok(s) => err == None && inner == s.depth && next == AddInt64(s.end, 0) && s.end < UINT64
  {
    hide ReadVarint;
    inner := depth;
    var wire, len;
    err, wire, next := DecodeVarint(dAtA, iNdEx);
    if err.Some? { return; }
    var wireType := wire % 8;
    match wireType
    case 0 =>
      err, next := PassVarint(dAtA, next);
    case 1 =>
      next := AddInt64(next, 8);
    case 2 =>
      err, len, next := DecodeVarint(dAtA, next);
      if err.Some? { return; }
      var length := ToInt64(len);
      if length < 0 {
        err := Some(InvalidLength);
        return;
      }
      next := AddInt64(next, length);
    case 3 =>
      inner := depth + 1;
    case 4 =>
      if depth == 0 {
        err := Some(UnexpectedEndOfGroup);
        return;
      }
      inner := depth - 1;
    case 5 =>
      next := AddInt64(next, 4);
    case _ =>
      err := Some(IllegalWireType(wireType));
  }

  /** `runtime.Skip`: the length of the record at the front of `dAtA`, groups counted by
      their depth. */
  method SkipLoop(dAtA: Bytes) returns (err: Option<Error>, n: nat)
    requires |dAtA| < INT_LIMIT
    ensures match Skip(dAtA)
            case Err(e) => err == Some(e)
            case Ok(skippy) => err == None && n == skippy < INT_LIMIT
  {
    hide SkipOne;
    err, n := None, 0;
    var iNdEx, depth := 0, 0;
    while iNdEx < |dAtA|
      invariant 0 <= iNdEx && err == None
      invariant Skip(dAtA) == if iNdEx <= |dAtA| then SkipFrom(dAtA, iNdEx, depth) else Err(UnexpectedEOF)
      decreases |dAtA| - iNdEx
    {
      err, iNdEx, depth := SkipPass(dAtA, iNdEx, depth);
      if err.Some? { return; }
      if iNdEx < 0 {
        err := Some(InvalidLength);
        return;
      }
      if depth == 0 {
        n := iNdEx;
        return;
      }
    }
    err := Some(UnexpectedEOF);
  }

  // -------------------------------------------------- one pass of a decoding loop

  /** One pass of the decoding loop of a message with schema `s` and value `x`, over the
      record that starts at index `pre` of `buf`. */
  datatype Pass = Pass(discard: bool, s: Schema, buf: Bytes, pre: nat, x: Message) {
    /** What decoding the buffer from `pre` on comes to. */
    ghost function Outcome(): Result<Message>
      requires pre <= |buf|
    {
      Decode(discard, s, buf[pre..], pre, x)
    }

    /** A pass ends at index `post` with value `y`, the rest of the buffer left to decode,
        or with an error, which is then the outcome. */
    ghost predicate Leads(err: Option<Error>, post: nat, y: Message)
      requires pre <= |buf|
    {
      match err
      case None => post <= |buf| && Outcome() == this.(pre := post, x := y).Outcome()
      case Some(e) => Outcome() == Err(e)
    }

    ghost predicate AfterTag(iNdEx: nat, fieldNum: int, wireType: nat) {
      pre < iNdEx <= |buf| < INT_LIMIT && fieldNum >= 1 &&
      ReadHeader(buf[pre..]) == Ok(Header(fieldNum, wireType, iNdEx - pre))
    }

    ghost predicate HasRecord(rec: Record, post: nat) {
      pre < post <= |buf| && Lex(s, buf[pre..], pre) == Ok(Lexeme(rec, post - pre))
    }
  }

  /** The record could not be read. */
  lemma LexFails(p: Pass, e: Error)
    requires p.pre < |p.buf| && Lex(p.s, p.buf[p.pre..], p.pre) == Err(e)
    ensures p.Outcome() == Err(e)
  {
    hide Lex;
  }

  /** The tag of the next record: its field number, truncated to an int32, and wire type. */
  method ReadTag(dAtA: Bytes, iNdEx: nat, ghost p: Pass)
    returns (err: Option<Error>, fieldNum: int, wireType: nat, next: nat)
    requires iNdEx < |dAtA| < INT_LIMIT && p.buf == dAtA && p.pre == iNdEx
    ensures err.Some? ==> p.Outcome() == Err(err.value)
    ensures err.None? ==> fieldNum >= 1 && iNdEx < next <= |dAtA| && p.AfterTag(next, fieldNum, wireType)
  {
    hide ReadVarint, Decode;
    var wire;
    fieldNum, wireType := 0, 0;
    err, wire, next := DecodeVarint(dAtA, iNdEx);
    if err.Some? {
      LexFails(p, err.value);
      return;
    }
    fieldNum := ToInt32(wire / 8);
    wireType := wire % 8;
    if wireType == 4 {
      err := Some(EndGroup);
      LexFails(p, EndGroup);
      return;
    }
    if fieldNum <= 0 {
      err := Some(IllegalTag(fieldNum, wire));
      LexFails(p, IllegalTag(fieldNum, wire));
    }
  }

  /** A length-delimited field: its wire type is checked, then its length. */
  method ReadPayload(dAtA: Bytes, iNdEx: nat, fieldNum: nat, wireType: nat, ghost p: Pass)
    returns (err: Option<Error>, from: nat, postIndex: nat)
    requires p.buf == dAtA && p.AfterTag(iNdEx, fieldNum, wireType)
    requires Knows(p.s, fieldNum) && !p.s[fieldNum - 1].IsScalar()
    ensures err.Some? ==> p.Outcome() == Err(err.value)
    ensures err.None? ==> from <= postIndex <= |dAtA| && p.pre < postIndex
    ensures err.None? ==> p.HasRecord(Payload(fieldNum - 1, dAtA[from..postIndex]), postIndex)
  {
    hide ReadHeader, ReadSpan, Decode;
    from, postIndex := iNdEx, iNdEx;
    if wireType != 2 {
      err := Some(WrongWireType(wireType, fieldNum));
      LexFails(p, err.value);
      return;
    }
    err, from, postIndex := ReadLength(dAtA, iNdEx, p.pre);
    if err.Some? {
      LexFails(p, err.value);
    } else {
      assert dAtA[p.pre..][from - p.pre..postIndex - p.pre] == dAtA[from..postIndex];
    }
  }

  /** A varint field. */
  method ReadScalar(dAtA: Bytes, iNdEx: nat, fieldNum: nat, wireType: nat, ghost p: Pass)
    returns (err: Option<Error>, v: nat, next: nat)
    requires p.buf == dAtA && p.AfterTag(iNdEx, fieldNum, wireType)
    requires fieldNum <= |p.s| && p.s[fieldNum - 1].IsScalar()
    ensures err.Some? ==> p.Outcome() == Err(err.value)
    ensures err.None? ==> p.pre < next <= |dAtA| && v < UINT64 && p.HasRecord(Scalar(fieldNum - 1, v), next)
  {
    hide ReadHeader, ReadVarint, Decode;
    v, next := 0, iNdEx;
    if wireType != 0 {
      err := Some(WrongWireType(wireType, fieldNum));
      LexFails(p, err.value);
      return;
    }
    assert dAtA[p.pre..][iNdEx - p.pre..] == dAtA[iNdEx..];
    err, v, next := DecodeVarint(dAtA, iNdEx);
    if err.Some? {
      LexFails(p, err.value);
    }
  }

  /** The default branch: the record is skipped from its tag on, with the guards on the
      wrapping sum of index and record length. */
  method SkipRecord(dAtA: Bytes, preIndex: nat, ghost iNdEx: nat, ghost fieldNum: int, ghost wireType: nat,
    ghost p: Pass)
    returns (err: Option<Error>, next: nat)
    requires p.buf == dAtA && p.pre == preIndex && p.AfterTag(iNdEx, fieldNum, wireType)
    requires fieldNum >= 1 && !Knows(p.s, fieldNum)
    ensures err.Some? ==> p.Outcome() == Err(err.value)
    ensures err.None? ==> preIndex < next <= |dAtA| && p.HasRecord(Unknown(dAtA[preIndex..next]), next)
  {
    hide ReadHeader, Skip, ReadKnown, Decode;
    next := preIndex;
    var skippy;
    err, skippy := SkipLoop(dAtA[preIndex..]);
    if err.Some? {
      LexFails(p, err.value);
      return;
    }
    var end := AddInt64(preIndex, skippy);
    if skippy < 0 || end < 0 {
      err := Some(InvalidLength);
      LexFails(p, InvalidLength);
      return;
    }
    if end > |dAtA| {
      err := Some(UnexpectedEOF);
      LexFails(p, UnexpectedEOF);
      return;
    }
    err, next := None, end;
    assert dAtA[preIndex..][..skippy] == dAtA[preIndex..next];
  }

  /** A record was read and applied, giving `y`: the buffer from `post` on remains. */
  lemma Next(p: Pass, rec: Record, post: nat, y: Message)
    requires p.HasRecord(rec, post) && Apply(p.discard, p.s, rec, p.x) == Ok(y)
    ensures p.Leads(None, post, y)
  {
    hide Lex, Apply;
    assert p.buf[p.pre..][post - p.pre..] == p.buf[post..];
  }

  lemma NextBytes(p: Pass, from: nat, post: nat, k: nat, y: Message)
    requires from <= post <= |p.buf| && k < |p.s| && p.s[k].KBytes?
    requires p.HasRecord(Payload(k, p.buf[from..post]), post)
    requires y == p.x.Set(k, FBytes(p.buf[from..post]))
    ensures p.Leads(None, post, y)
  {
    hide Lex, Decode;
    Next(p, Payload(k, p.buf[from..post]), post, y);
  }

  lemma NextString(p: Pass, from: nat, post: nat, k: nat, y: Message)
    requires from <= post <= |p.buf| && k < |p.s| && p.s[k].KRepeated?
    requires p.HasRecord(Payload(k, p.buf[from..post]), post)
    requires y == p.x.Set(k, FRepeated(Strings(p.x.Get(k)) + [p.buf[from..post]]))
    ensures p.Leads(None, post, y)
  {
    hide Lex, Decode;
    Next(p, Payload(k, p.buf[from..post]), post, y);
  }

  lemma NextScalar(p: Pass, v: nat, post: nat, k: nat, y: Message)
    requires k < |p.s| && p.HasRecord(Scalar(k, v), post) && y == p.x.Set(k, FUint64(Stored(p.s[k], v)))
    ensures p.Leads(None, post, y)
  {
    hide Lex, Decode;
    Next(p, Scalar(k, v), post, y);
  }

  /** A new list element was decoded into, ending with `err` and value `m`. */
  lemma NextElement(p: Pass, from: nat, post: nat, k: nat, err: Option<Error>, m: Message, y: Message)
    requires from <= post <= |p.buf| && k < |p.s| && p.s[k].KMessages?
    requires p.HasRecord(Payload(k, p.buf[from..post]), post)
    requires Reports(Decode(p.discard, p.s[k].elem, p.buf[from..post], 0, Empty(p.s[k].elem)), err, m)
    requires err.None? ==> y == p.x.Set(k, FMessages(Elements(p.x.Get(k)) + [m]))
    ensures p.Leads(err, post, y)
  {
    hide Lex;
    NextAfterNested(p, Payload(k, p.buf[from..post]), post, err, y);
  }

  /** The singular sub-message was decoded into, ending with `err` and value `m`. */
  lemma NextMessage(p: Pass, from: nat, post: nat, k: nat, err: Option<Error>, m: Message, y: Message)
    requires from <= post <= |p.buf| && k < |p.s| && p.s[k].KMessage?
    requires p.HasRecord(Payload(k, p.buf[from..post]), post)
    requires Reports(Decode(p.discard, p.s[k].sub, p.buf[from..post], 0, SubMessage(p.s[k].sub, p.x.Get(k))), err, m)
    requires err.None? ==> y == p.x.Set(k, FMessage(Some(m)))
    ensures p.Leads(err, post, y)
  {
    hide Lex;
    NextAfterNested(p, Payload(k, p.buf[from..post]), post, err, y);
  }

  lemma NextAfterNested(p: Pass, rec: Record, post: nat, err: Option<Error>, y: Message)
    requires p.HasRecord(rec, post)
    requires Apply(p.discard, p.s, rec, p.x) == if err.Some? then Err(err.value) else Ok(y)
    ensures p.Leads(err, post, y)
  {
    hide Lex, Apply;
    if err.None? {
      Next(p, rec, post, y);
    }
  }

  lemma NextUnknown(p: Pass, post: nat, y: Message)
    requires p.pre <= post <= |p.buf| && p.HasRecord(Unknown(p.buf[p.pre..post]), post)
    requires y == if p.discard then p.x else p.x.AddUnknown(p.buf[p.pre..post])
    ensures p.Leads(None, post, y)
  {
    hide Lex, Decode;
    Next(p, Unknown(p.buf[p.pre..post]), post, y);
  }

  lemma Start(p: Pass)
    requires p.pre == 0
    ensures p.Outcome() == Decode(p.discard, p.s, p.buf, 0, p.x)
  {
    assert p.buf[0..] == p.buf;
  }

  /** The whole buffer is decoded. */
  lemma Done(p: Pass)
    requires p.pre == |p.buf|
    ensures p.Outcome() == Ok(p.x)
  {
  }

  /** How a method that decoded into an object reports: the object then holds `value`. */
  ghost predicate Reports(r: Result<Message>, err: Option<Error>, value: Message) {
    match r
    case Ok(y) => err == None && value == y
    case Err(e) => err == Some(e)
  }
}
