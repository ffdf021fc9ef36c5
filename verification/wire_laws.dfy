/** What the wire format promises: varints read back, reading looks only at the
    bytes it consumes, and minimal lengths are minimal. */
module WireLaws {
  import opened Wire

  /** 128^k, the number of values of k groups. */
  function Pow128(k: nat): nat {
    if k == 0 then 1 else 128 * Pow128(k - 1)
  }

  // ---------------------------------------------------------------- varints

  lemma {:induction false} GroupsOfVarint(v: nat)
    ensures Groups(Varint(v)) == v && |Varint(v)| == Sov(v)
  {
    if v >= 128 {
      GroupsOfVarint(v / 128);
      assert Varint(v)[1..] == Varint(v / 128);
    }
  }

  lemma {:induction false} VarintShape(v: nat)
    ensures Varint(v)[|Varint(v)| - 1] < 128
    ensures forall j :: 0 <= j < |Varint(v)| - 1 ==> Varint(v)[j] >= 128
  {
    if v >= 128 {
      VarintShape(v / 128);
      assert Varint(v)[1..] == Varint(v / 128);
    }
  }

  lemma {:induction false} GroupsBound(b: Bytes)
    ensures Groups(b) < Pow128(|b|)
  {
    if b != [] {
      GroupsBound(b[1..]);
    }
  }

  /** The fewest groups that can hold `v`. */
  lemma {:induction false} SovMinimal(v: nat, k: nat)
    requires 1 <= k
    ensures Sov(v) <= k <==> v < Pow128(k)
  {
    if k == 1 {
      assert Pow128(1) == 128 * Pow128(0);
    } else if v >= 128 {
      SovMinimal(v / 128, k - 1);
    } else {
      assert Pow128(k) >= 128 by { Pow128AtLeast(k); }
    }
  }

  lemma {:induction false} Pow128AtLeast(k: nat)
    ensures Pow128(k) >= 1 && (k >= 1 ==> Pow128(k) >= 128)
  {
    if k > 0 {
      Pow128AtLeast(k - 1);
    }
  }

  lemma Pow128Concrete()
    ensures Pow128(8) == 0x100_0000_0000_0000
    ensures Pow128(9) == INT_LIMIT
    ensures Pow128(10) == 64 * UINT64
  {
    assert Pow128(2) == 0x4000;
    assert Pow128(4) == 0x1000_0000;
    assert Pow128(6) == 0x400_0000_0000;
    assert Pow128(8) == 0x100_0000_0000_0000;
  }

  lemma SovOfUint64(v: nat)
    requires v < UINT64
    ensures 1 <= Sov(v) <= MAX_VARINT
  {
    Pow128Concrete();
    SovMinimal(v, MAX_VARINT);
  }

  /** A scan ends at the first byte without the continuation bit, and fails only when the
      bytes it may look at all have it. */
  lemma {:induction false} ScanStopsFirst(b: Bytes, k: nat)
    requires k <= MAX_VARINT && k <= |b|
    ensures var r := ScanVarint(b, k);
            forall j :: k <= j < (if r.Ok? then r.value - 1 else if |b| < MAX_VARINT then |b| else MAX_VARINT) ==>
              b[j] >= 128
    decreases MAX_VARINT - k
  {
    if k < MAX_VARINT && k < |b| && b[k] >= 128 {
      ScanStopsFirst(b, k + 1);
    }
  }

  /** Reading depends on nothing past the bytes it consumes. */
  lemma {:induction false} ScanLocal(b: Bytes, c: Bytes, k: nat)
    requires k <= MAX_VARINT && k <= |b|
    requires ScanVarint(b, k).Ok?
    requires ScanVarint(b, k).value <= |c| && c[..ScanVarint(b, k).value] == b[..ScanVarint(b, k).value]
    ensures ScanVarint(c, k) == ScanVarint(b, k)
    decreases MAX_VARINT - k
  {
    var n := ScanVarint(b, k).value;
    assert c[k] == c[..n][k] == b[..n][k] == b[k];
    if b[k] >= 128 {
      ScanLocal(b, c, k + 1);
    }
  }

  lemma ReadVarintLocal(b: Bytes, c: Bytes)
    requires ReadVarint(b).Ok?
    requires ReadVarint(b).value.n <= |c| && c[..ReadVarint(b).value.n] == b[..ReadVarint(b).value.n]
    ensures ReadVarint(c) == ReadVarint(b)
  {
    ScanLocal(b, c, 0);
  }

  /** A scan stops at the first byte without the continuation bit. */
  lemma {:induction false} ScanFinds(b: Bytes, k: nat, n: nat)
    requires k < n <= MAX_VARINT && n <= |b| && b[n - 1] < 128
    requires forall j :: k <= j < n - 1 ==> b[j] >= 128
    ensures ScanVarint(b, k) == Ok(n)
    decreases n - k
  {
    if k < n - 1 {
      ScanFinds(b, k + 1, n);
    }
  }

  /** The minimal varint of every uint64 reads back, whatever follows it. */
  lemma VarintRoundTrip(v: nat, rest: Bytes)
    requires v < UINT64
    ensures ReadVarint(Varint(v) + rest) == Ok(Num(v, Sov(v)))
  {
    hide Varint, Groups, Sov, ScanVarint;
    var b, n := Varint(v) + rest, Sov(v);
    assert |Varint(v)| == n && Groups(Varint(v)) == v by { GroupsOfVarint(v); }
    SovOfUint64(v);
    assert b[n - 1] < 128 && forall j :: 0 <= j < n - 1 ==> b[j] >= 128 by { VarintShape(v); }
    ScanFinds(b, 0, n);
    assert b[..n] == Varint(v);
  }

  /** A tag is its field number and its wire type; small numbers survive truncation. */
  lemma TagParts(num: nat, wireType: nat)
    requires wireType < 8
    ensures (8 * num + wireType) / 8 == num && (8 * num + wireType) % 8 == wireType
    ensures num < 0x8000_0000 ==> ToInt32(num) == num
  {
  }

  /** A varint, minimal or not: at most ten bytes, of which the last alone lacks the
      continuation bit. */
  predicate IsVarint(raw: Bytes) {
    1 <= |raw| <= 10 && raw[|raw| - 1] < 128 && forall j :: 0 <= j < |raw| - 1 ==> raw[j] >= 128
  }

  /** No varint starts at index `i`: the input ends before it does, or it has no end
      within ten bytes. */
  predicate NoVarint(b: Bytes, i: nat, e: Error)
    requires i <= |b|
  {
    && (forall j :: i <= j < |b| && j < i + 10 ==> b[j] >= 128)
    && e == if |b| - i < 10 then UnexpectedEOF else IntOverflow
  }

  /** Every varint is read, whatever follows it. */
  lemma VarintReads(b: Bytes, i: nat, j: nat)
    requires i < j <= |b| && IsVarint(b[i..j])
    ensures ReadVarint(b[i..]) == Ok(Num(Uint64(b[i..j]), j - i))
  {
    hide Groups, ScanVarint;
    var c := b[i..];
    assert forall k :: 0 <= k < j - i ==> c[k] == b[i..j][k];
    ScanFinds(c, 0, j - i);
    assert c[..j - i] == b[i..j];
  }

  lemma NoVarintFails(b: Bytes, i: nat, e: Error)
    requires i <= |b| && NoVarint(b, i, e)
    ensures ReadVarint(b[i..]) == Err(e)
  {
    hide Groups, ScanVarint;
    var c := b[i..];
    assert forall k :: 0 <= k < |c| ==> c[k] == b[i + k];
  }

  /** Nothing else is read: what is accepted is a varint, and the error is that of an
      input that starts with none. */
  lemma ReadsVarints(b: Bytes, i: nat)
    requires i <= |b|
    ensures match ReadVarint(b[i..])
            case Ok(r) => i < i + r.n <= |b| && IsVarint(b[i..i + r.n]) && r.v == Uint64(b[i..i + r.n])
            case Err(e) => NoVarint(b, i, e)
  {
    hide Groups, ScanVarint;
    var c := b[i..];
    ScanStopsFirst(c, 0);
    assert forall k :: i <= k < |b| ==> b[k] == c[k - i];
    if ScanVarint(c, 0).Ok? {
      var n := ScanVarint(c, 0).value;
      assert b[i..i + n] == c[..n];
    }
  }

  /** Minimal varints are varints. */
  lemma MinimalIsVarint(v: nat)
    requires v < UINT64
    ensures IsVarint(Varint(v)) && Uint64(Varint(v)) == v
  {
    hide Varint, Groups, Sov;
    GroupsOfVarint(v);
    VarintShape(v);
    SovOfUint64(v);
  }

  /** Go's conversions to int32 and int64 and its sum of ints: the one value of the type
      that is the same modulo 2^32 or 2^64. */
  lemma GoInt32(u: nat, r: int)
    ensures ToInt32(u) == r <==> -0x8000_0000 <= r < 0x8000_0000 && (r - u) % 0x1_0000_0000 == 0
  {
  }

  lemma GoInt64(u: nat, r: int)
    requires u < UINT64
    ensures ToInt64(u) == r <==> -0x8000_0000_0000_0000 <= r < 0x8000_0000_0000_0000 && (r - u) % UINT64 == 0
  {
  }

  lemma GoSum(a: int, b: int, r: int)
    ensures AddInt64(a, b) == r
        <==> -0x8000_0000_0000_0000 <= r < 0x8000_0000_0000_0000 && (r - (a + b)) % UINT64 == 0
  {
  }

  /** No encoding of a value is shorter than its minimal varint. */
  lemma VarintNotLonger(b: Bytes)
    requires ReadVarint(b).Ok?
    ensures Sov(ReadVarint(b).value.v) <= ReadVarint(b).value.n
  {
    var r := ReadVarint(b).value;
    GroupsBound(b[..r.n]);
    SovMinimal(r.v, r.n);
  }

  lemma {:induction false} SovMonotone(v: nat, w: nat)
    requires v <= w
    ensures Sov(v) <= Sov(w)
  {
    if v >= 128 {
      SovMonotone(v / 128, w / 128);
    }
  }

  /** Length prefixes never grow when two payloads are joined under one. */
  lemma {:induction false} SovSubadditive(v: nat, w: nat)
    ensures Sov(v + w) <= Sov(v) + Sov(w)
    decreases v + w
  {
    if v + w >= 128 {
      if v < 128 || w < 128 {
        var big := if v < w then w else v;
        SovMonotone((v + w) / 128, 1 + big / 128);
        SovSuccessor(big / 128);
      } else {
        SovMonotone((v + w) / 128, v / 128 + w / 128 + 1);
        SovSubadditive(v / 128, w / 128);
        SovSuccessor(v / 128 + w / 128);
      }
    }
  }

  lemma {:induction false} SovSuccessor(v: nat)
    ensures Sov(v + 1) <= Sov(v) + 1
  {
    if v >= 128 {
      SovSuccessor(v / 128);
      SovMonotone((v + 1) / 128, v / 128 + 1);
    }
  }

  // ------------------------------------------------------------ record length

  lemma ReadAtLocal(b: Bytes, c: Bytes, n: nat, i: nat)
    requires i <= n <= |b| && n <= |c| && c[..n] == b[..n]
    requires ReadVarint(b[i..]).Ok? && i + ReadVarint(b[i..]).value.n <= n
    ensures ReadVarint(c[i..]) == ReadVarint(b[i..])
  {
    var m := ReadVarint(b[i..]).value.n;
    assert c[i..][..m] == c[..n][i..i + m] == b[..n][i..i + m] == b[i..][..m];
    ReadVarintLocal(b[i..], c[i..]);
  }

  lemma SkipOneLocal(b: Bytes, c: Bytes, i: nat, depth: nat)
    requires i <= |b| && SkipOne(b, i, depth).Ok?
    requires SkipOne(b, i, depth).value.end <= |b| && SkipOne(b, i, depth).value.end <= |c|
    requires c[..SkipOne(b, i, depth).value.end] == b[..SkipOne(b, i, depth).value.end]
    ensures SkipOne(c, i, depth) == SkipOne(b, i, depth)
  {
    hide ReadVarint;
    var n := SkipOne(b, i, depth).value.end;
    var tag := ReadVarint(b[i..]).value;
    ReadAtLocal(b, c, n, i);
    if tag.v % 8 == 0 || tag.v % 8 == 2 {
      ReadAtLocal(b, c, n, i + tag.n);
    }
  }

  lemma {:induction false} SkipLocal(b: Bytes, c: Bytes, i: nat, depth: nat)
    requires i <= |b| && SkipFrom(b, i, depth).Ok?
    requires SkipFrom(b, i, depth).value <= |b| && SkipFrom(b, i, depth).value <= |c|
    requires c[..SkipFrom(b, i, depth).value] == b[..SkipFrom(b, i, depth).value]
    ensures SkipFrom(c, i, depth) == SkipFrom(b, i, depth)
    decreases |b| - i
  {
    var n := SkipFrom(b, i, depth).value;
    var s := SkipOne(b, i, depth).value;
    assert c[..s.end] == c[..n][..s.end] == b[..n][..s.end] == b[..s.end];
    SkipOneLocal(b, c, i, depth);
    if s.depth != 0 {
      SkipLocal(b, c, s.end, s.depth);
    }
  }
}
