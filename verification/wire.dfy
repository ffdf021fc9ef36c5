/** The Protocol Buffers wire format shared by every generated message: bytes,
    errors, base-128 varints, length prefixes and the length of one record. */
module Wire {

  type byte = x: int | 0 <= x < 256
  type Bytes = seq<byte>

  /** 2^63, the first value a Go int cannot hold, and 2^64, the modulus of a uint64. */
  const INT_LIMIT: nat := 0x8000_0000_0000_0000
  const UINT64: nat := 0x1_0000_0000_0000_0000

  /** A longest varint: shifts 0, 7, ..., 63. */
  const MAX_VARINT: nat := 10

  /** The errors of the decoders, with the values their messages report. */
  datatype Error =
    | IntOverflow
    | UnexpectedEOF
    | InvalidLength
    | EndGroup
    | IllegalTag(fieldNum: int, wire: nat)
    | WrongWireType(wireType: nat, field: nat)
    | UnexpectedEndOfGroup
    | IllegalWireType(illegal: nat)

  datatype Option<+T> = None | Some(value: T)

  datatype Result<+T> = Ok(value: T) | Err(error: Error) {
    predicate IsFailure() {
      Err?
    }

    function PropagateFailure<U>(): Result<U>
      requires Err?
    {
      Err(error)
    }

    function Extract(): T
      requires Ok?
    {
      value
    }
  }

  /** A Go int read off the 64 bits of `u` in two's complement. */
  function ToInt64(u: nat): int
    requires u < UINT64
  {
    if u < INT_LIMIT then u else u - UINT64
  }

  /** The 64 bits of a Go int64 read as a uint64. */
  function ToUint64(v: int): (u: nat)
    requires -0x8000_0000_0000_0000 <= v < INT_LIMIT
    ensures u < UINT64 && ToInt64(u) == v
  {
    if v < 0 then v + UINT64 else v
  }

  /** The low 32 bits of `u` as a Go int32. */
  function ToInt32(u: nat): int {
    var low := u % 0x1_0000_0000;
    if low < 0x8000_0000 then low else low - 0x1_0000_0000
  }

  /** A sum of two Go ints, wrapped to 64 bits. */
  function AddInt64(a: int, b: int): int {
    (a + b + INT_LIMIT) % UINT64 - INT_LIMIT
  }

  // ---------------------------------------------------------------- varints

  /** The value of base-128 groups, least significant group first. */
  function Groups(b: Bytes): nat {
    if b == [] then 0 else b[0] % 128 + 128 * Groups(b[1..])
  }

  /** The minimal varint of `v`. */
  function Varint(v: nat): (b: Bytes)
    ensures |b| >= 1
  {
    if v < 128 then [v] else [v % 128 + 128] + Varint(v / 128)
  }

  /** The length of the minimal varint. */
  function Sov(v: nat): nat {
    if v < 128 then 1 else 1 + Sov(v / 128)
  }

  /** Where the varint at the front of `b` ends, the first `k` bytes being continuations. */
  function ScanVarint(b: Bytes, k: nat): (r: Result<nat>)
    requires k <= MAX_VARINT && k <= |b|
    ensures r.Ok? ==> k < r.value <= |b| && r.value <= MAX_VARINT && b[r.value - 1] < 128
    ensures r.Err? ==> r.error == if |b| < MAX_VARINT then UnexpectedEOF else IntOverflow
    decreases MAX_VARINT - k
  {
    if k == MAX_VARINT then Err(IntOverflow)
    else if k == |b| then Err(UnexpectedEOF)
    else if b[k] < 128 then Ok(k + 1)
    else ScanVarint(b, k + 1)
  }

  /** A value read and the number of bytes it took. */
  datatype Num = Num(v: nat, n: nat)

  function Uint64(groups: Bytes): (v: nat)
    ensures v < UINT64
  {
    Groups(groups) % UINT64
  }

  /** The uint64 at the front of `b`: the base-128 sum of its groups, modulo 2^64. */
  function ReadVarint(b: Bytes): (r: Result<Num>)
    ensures r.Ok? ==> 1 <= r.value.n <= |b| && r.value.n <= MAX_VARINT && r.value.v < UINT64
  {
    var n :- ScanVarint(b, 0);
    Ok(Num(Uint64(b[..n]), n))
  }

  // ---------------------------------------------------- length-delimited data

  /** The end of `len` bytes that start at offset `from` of `b`, where `b` starts at
      index `at` of the buffer; past the end, the error depends on whether the
      absolute index still fits a Go int. */
  function EndOf(b: Bytes, at: nat, from: nat, len: nat): (r: Result<nat>)
    ensures r.Ok? <==> from + len <= |b|
    ensures r.Ok? ==> r.value == from + len
  {
    if from + len <= |b| then Ok(from + len)
    else if at + from + len < INT_LIMIT then Err(UnexpectedEOF)
    else Err(InvalidLength)
  }

  /** A length prefix at offset `from` of `b`: the ends of the prefix and of the data. */
  datatype Span = Span(from: nat, end: nat)

  function ReadSpan(b: Bytes, at: nat, from: nat): (r: Result<Span>)
    requires from <= |b|
    ensures r.Ok? ==> from < r.value.from <= r.value.end <= |b|
  {
    var len :- ReadVarint(b[from..]);
    var end :- EndOf(b, at, from + len.n, len.v);
    Ok(Span(from + len.n, end))
  }

  // ------------------------------------------------------------- record length

  /** One step of `Skip` from offset `i`: the offset after one tag and its payload,
      and the group depth after it. */
  datatype Skipped = Skipped(end: nat, depth: nat)

  function SkipOne(b: Bytes, i: nat, depth: nat): (r: Result<Skipped>)
    requires i <= |b|
    ensures r.Ok? ==> i < r.value.end
  {
    var tag :- ReadVarint(b[i..]);
    var j := i + tag.n;
    var wireType := tag.v % 8;
    if wireType == 0 then
      var x :- ReadVarint(b[j..]);
      Ok(Skipped(j + x.n, depth))
    else if wireType == 1 then Ok(Skipped(j + 8, depth))
    else if wireType == 2 then
      var len :- ReadVarint(b[j..]);
      if len.v < INT_LIMIT then Ok(Skipped(j + len.n + len.v, depth)) else Err(InvalidLength)
    else if wireType == 3 then Ok(Skipped(j, depth + 1))
    else if wireType == 4 then
      if depth == 0 then Err(UnexpectedEndOfGroup) else Ok(Skipped(j, depth - 1))
    else if wireType == 5 then Ok(Skipped(j + 4, depth))
    else Err(IllegalWireType(wireType))
  }

  /** The length of the record at the front of `b`, of which `i` bytes are read and
      `depth` groups are open. It may lie past the end of `b`: the caller checks. */
  function SkipFrom(b: Bytes, i: nat, depth: nat): (r: Result<nat>)
    requires i <= |b|
    ensures r.Ok? ==> i < r.value
    decreases |b| - i
  {
    if i == |b| then Err(UnexpectedEOF)
    else
      var s :- SkipOne(b, i, depth);
      if s.end >= INT_LIMIT then Err(InvalidLength)
      else if s.depth == 0 then Ok(s.end)
      else if s.end > |b| then Err(UnexpectedEOF)
      else SkipFrom(b, s.end, s.depth)
  }

  function Skip(b: Bytes): (r: Result<nat>)
    ensures r.Ok? ==> 0 < r.value
  {
    SkipFrom(b, 0, 0)
  }
}
