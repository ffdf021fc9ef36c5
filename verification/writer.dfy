/** The backward buffer writes that every generated `marshal` inlines. */
module Writer {
  import opened Wire
  import opened WireLaws
  import opened Codec
  import opened Sizes

  /** `copy(dAtA[i:], b)` for a `b` that fits. */
  method Copy(dAtA: array<byte>, i: nat, b: Bytes)
    requires i + |b| <= dAtA.Length
    modifies dAtA
    ensures dAtA[i..] == b + old(dAtA[i + |b|..])
    ensures dAtA[..i] == old(dAtA[..i])
  {
    ghost var before := dAtA[..];
    for k := 0 to |b|
      invariant forall j :: 0 <= j < dAtA.Length ==>
                  dAtA[j] == if i <= j < i + k then b[j - i] else before[j]
    {
      dAtA[i + k] := b[k];
    }
    assert dAtA[i..] == b + before[i + |b|..];
    assert dAtA[..i] == before[..i];
  }

  lemma SovStep(v: nat)
    ensures Sov(v) == if v < 128 then 1 else 1 + Sov(v / 128)
  {
  }

  /** One more group of a varint: its low seven bits with the continuation bit. */
  lemma VarintStep(done: Bytes, v: nat)
    ensures Sov(v) == if v < 128 then 1 else 1 + Sov(v / 128)
    ensures v < 128 ==> done + Varint(v) == done + [v]
    ensures v >= 128 ==> done + Varint(v) == done + [v % 128 + 128] + Varint(v / 128)
  {
    hide Sov;
    SovStep(v);
    if v >= 128 {
      assert done + Varint(v) == done + ([v % 128 + 128] + Varint(v / 128));
    }
  }

  /** `runtime.EncodeVarint`: the minimal varint of `v`, ending just before `offset`,
      written group by group from its start. */
  method EncodeVarint(dAtA: array<byte>, offset: nat, v: nat) returns (base: nat)
    requires Sov(v) <= offset <= dAtA.Length
    modifies dAtA
    ensures base == offset - Sov(v)
    ensures dAtA[base..] == Varint(v) + old(dAtA[offset..])
    ensures dAtA[..base] == old(dAtA[..base])
  {
    hide Varint, Sov;
    ghost var before := dAtA[..];
    ghost var done: Bytes := [];
    base := offset - Sov(v);
    var i, rest := base, v;
    VarintStep(done, rest);
    assert done + Varint(v) == Varint(v);
    while rest >= 128
      invariant i == base + |done| && i + Sov(rest) == offset && i < offset
      invariant done + Varint(rest) == Varint(v)
      invariant forall j :: 0 <= j < dAtA.Length ==>
                  dAtA[j] == if base <= j < i then done[j - base] else before[j]
    {
      VarintStep(done, rest);
      dAtA[i] := rest % 128 + 128;
      done := done + [dAtA[i]];
      rest := rest / 128;
      i := i + 1;
      SovStep(rest);
    }
    VarintStep(done, rest);
    dAtA[i] := rest;
    done := done + [dAtA[i]];
    assert dAtA[base..] == done + before[offset..];
    assert dAtA[..base] == before[..base];
  }

  /** One byte in front of index `i`. */
  method PutByte(dAtA: array<byte>, i: nat, b: byte) returns (j: nat)
    requires 1 <= i <= dAtA.Length
    modifies dAtA
    ensures j == i - 1 && dAtA[j..] == [b] + old(dAtA[i..])
  {
    ghost var rest := dAtA[i..];
    j := i - 1;
    dAtA[j] := b;
    assert dAtA[j + 1..] == rest;
  }

  lemma Joined(a: Bytes, b: Bytes, c: Bytes, d: Bytes)
    ensures a + (b + (c + d)) == a + b + c + d
  {
  }

  /** One length-delimited record, written backwards before index `i`. */
  method PutRecord(dAtA: array<byte>, i: nat, tag: byte, payload: Bytes) returns (j: nat)
    requires SizeBytes(|payload|) <= i <= dAtA.Length
    modifies dAtA
    ensures j == i - SizeBytes(|payload|)
    ensures dAtA[j..] == [tag] + Varint(|payload|) + payload + old(dAtA[i..])
  {
    hide Varint, Sov;
    ghost var rest := dAtA[i..];
    j := i - |payload|;
    Copy(dAtA, j, payload);
    j := EncodeVarint(dAtA, j, |payload|);
    j := PutByte(dAtA, j, tag);
    Joined([tag], Varint(|payload|), payload, rest);
  }

  /** The writer stands at `i` with `todo` still to be written in front of what the
      buffer holds from `i` on; together they are `full`. */
  ghost predicate Writing(dAtA: array<byte>, i: nat, todo: Bytes, full: Bytes)
    reads dAtA
  {
    i == |todo| <= dAtA.Length && todo + dAtA[i..] == full
  }

  /** The last record of what is still to be written. */
  method PutElement(dAtA: array<byte>, i: nat, tag: byte, b: Bytes,
    ghost todo: Bytes, ghost num: nat, ghost full: Bytes)
    returns (j: nat)
    requires tag == Tag(num, 2)
    requires Writing(dAtA, i, todo + EncodeBytes(num, b), full)
    modifies dAtA
    ensures Writing(dAtA, j, todo, full)
  {
    hide Sov;
    SizeOfBytes(num, b);
    ghost var tail := dAtA[i..];
    j := PutRecord(dAtA, i, tag, b);
    assert todo + dAtA[j..] == todo + EncodeBytes(num, b) + tail;
  }

  /** The fields `1..k` of `fs` are still to be written. */
  ghost predicate AtField(dAtA: array<byte>, i: nat, fs: seq<Field>, k: nat, full: Bytes)
    reads dAtA
  {
    k <= |fs| && Writing(dAtA, i, EncodeFields(fs[..k]), full)
  }

  lemma EncodeFieldsStep(fs: seq<Field>, k: nat)
    requires 1 <= k <= |fs|
    ensures EncodeFields(fs[..k]) == EncodeFields(fs[..k - 1]) + EncodeField(k, fs[k - 1])
  {
    hide EncodeField;
    assert fs[..k][..k - 1] == fs[..k - 1];
  }

  /** The buffer of `marshal`: exactly `Size(x)` bytes, with the unknown records last. */
  method Allocate(ghost x: Message, size: nat, unknownFields: Bytes) returns (dAtA: array<byte>, i: nat)
    requires size == Size(x) && unknownFields == x.unknown
    ensures fresh(dAtA) && dAtA.Length == size
    ensures AtField(dAtA, i, x.fields, |x.fields|, Encode(x))
  {
    hide SizeFields, EncodeFields;
    dAtA := new byte[size](_ => 0);
    SizeOfFields(x.fields);
    i := dAtA.Length - |unknownFields|;
    Copy(dAtA, i, unknownFields);
    assert x.fields[..|x.fields|] == x.fields;
    assert dAtA[i..] == unknownFields;
  }

  /** A singular string or bytes field, omitted when empty. */
  method PutBytes(dAtA: array<byte>, i: nat, tag: byte, b: Bytes, ghost fs: seq<Field>, ghost k: nat, ghost full: Bytes)
    returns (j: nat)
    requires 1 <= k && AtField(dAtA, i, fs, k, full)
    requires fs[k - 1] == FBytes(b) && tag == Tag(k, 2)
    modifies dAtA
    ensures AtField(dAtA, j, fs, k - 1, full)
  {
    hide EncodeFields, EncodeBytes;
    EncodeFieldsStep(fs, k);
    j := i;
    ghost var before := EncodeFields(fs[..k - 1]);
    if |b| > 0 {
      j := PutElement(dAtA, i, tag, b, before, k, full);
    } else {
      assert before + [] == before;
    }
  }

  /** A repeated string field, last element first; empty strings are kept. */
  method PutStrings(dAtA: array<byte>, i: nat, tag: byte, bs: seq<Bytes>,
    ghost fs: seq<Field>, ghost k: nat, ghost full: Bytes)
    returns (j: nat)
    requires 1 <= k && AtField(dAtA, i, fs, k, full)
    requires fs[k - 1] == FRepeated(bs) && tag == Tag(k, 2)
    modifies dAtA
    ensures AtField(dAtA, j, fs, k - 1, full)
  {
    hide EncodeFields, EncodeBytes;
    EncodeFieldsStep(fs, k);
    j := i;
    ghost var before := EncodeFields(fs[..k - 1]);
    var iNdEx := |bs| - 1;
    assert bs[..|bs|] == bs;
    while iNdEx >= 0
      invariant -1 <= iNdEx < |bs|
      invariant Writing(dAtA, j, before + EncodeStrings(k, bs[..iNdEx + 1]), full)
    {
      ghost var todo := before + EncodeStrings(k, bs[..iNdEx]);
      assert bs[..iNdEx + 1][..iNdEx] == bs[..iNdEx];
      assert before + EncodeStrings(k, bs[..iNdEx + 1]) == todo + EncodeBytes(k, bs[iNdEx]);
      j := PutElement(dAtA, j, tag, bs[iNdEx], todo, k, full);
      iNdEx := iNdEx - 1;
    }
    assert before + [] == before;
  }

  lemma SizeFieldsStep(fs: seq<Field>, k: nat)
    requires 1 <= k <= |fs|
    ensures SizeFields(fs[..k]) == SizeFields(fs[..k - 1]) + SizeField(fs[k - 1])
  {
    hide SizeField;
    assert fs[..k][..k - 1] == fs[..k - 1];
  }

  lemma NothingSized(fs: seq<Field>)
    ensures SizeFields(fs[..0]) == 0
  {
  }

  /** The size so far, and a string or bytes field that counts only when not empty. */
  method SizeOptional(n: nat, b: Bytes, ghost fs: seq<Field>, ghost k: nat) returns (m: nat)
    requires 1 <= k <= |fs| && fs[k - 1] == FBytes(b)
    requires n == SizeFields(fs[..k - 1])
    ensures m == SizeFields(fs[..k])
  {
    hide SizeFields;
    SizeFieldsStep(fs, k);
    var l := |b|;
    m := n;
    if l > 0 {
      m := m + 1 + l + Sov(l);
    }
  }

  /** Nothing is left to write: the buffer is full, from index 0. */
  lemma AllWritten(dAtA: array<byte>, i: nat, fs: seq<Field>, full: Bytes)
    requires AtField(dAtA, i, fs, 0, full)
    ensures i == 0 && dAtA[..] == full
  {
    assert EncodeFields(fs[..0]) == [];
    assert dAtA[0..] == dAtA[..];
  }

  /** A uint64 field, omitted when zero. */
  method PutUint64(dAtA: array<byte>, i: nat, tag: byte, v: nat, ghost fs: seq<Field>, ghost k: nat, ghost full: Bytes)
    returns (j: nat)
    requires 1 <= k && AtField(dAtA, i, fs, k, full)
    requires fs[k - 1] == FUint64(v) && tag == Tag(k, 0)
    modifies dAtA
    ensures AtField(dAtA, j, fs, k - 1, full)
  {
    hide EncodeFields, Varint, Sov;
    EncodeFieldsStep(fs, k);
    j := i;
    ghost var before := EncodeFields(fs[..k - 1]);
    if v != 0 {
      GroupsOfVarint(v);
      ghost var tail := dAtA[i..];
      j := EncodeVarint(dAtA, j, v);
      j := PutByte(dAtA, j, tag);
      assert before + dAtA[j..] == before + ([tag] + Varint(v)) + tail;
    } else {
      assert before + [] == before;
    }
  }

  /** A bool field, omitted when false. */
  method PutBool(dAtA: array<byte>, i: nat, tag: byte, v: bool, ghost fs: seq<Field>, ghost k: nat, ghost full: Bytes)
    returns (j: nat)
    requires 1 <= k && AtField(dAtA, i, fs, k, full)
    requires fs[k - 1] == FUint64(if v then 1 else 0) && tag == Tag(k, 0)
    modifies dAtA
    ensures AtField(dAtA, j, fs, k - 1, full)
  {
    hide EncodeFields;
    EncodeFieldsStep(fs, k);
    j := i;
    ghost var before := EncodeFields(fs[..k - 1]);
    if v {
      ghost var tail := dAtA[i..];
      j := PutByte(dAtA, j, 1);
      j := PutByte(dAtA, j, tag);
      assert before + dAtA[j..] == before + ([tag] + Varint(1)) + tail;
    } else {
      assert before + [] == before;
    }
  }

  /** Nothing is written for a field number that is not in use. */
  lemma NoField(dAtA: array<byte>, i: nat, fs: seq<Field>, k: nat, full: Bytes)
    requires 1 <= k && AtField(dAtA, i, fs, k, full) && fs[k - 1] == FBytes([])
    ensures AtField(dAtA, i, fs, k - 1, full)
  {
    hide EncodeFields;
    EncodeFieldsStep(fs, k);
    assert EncodeFields(fs[..k - 1]) + [] == EncodeFields(fs[..k - 1]);
  }

  // ------------------------------------------------------------ lists of messages

  /** In front of a list field: all its elements are still to be written. */
  lemma ElementsAhead(dAtA: array<byte>, i: nat, fs: seq<Field>, k: nat, ms: seq<Message>, full: Bytes)
    requires 1 <= k && AtField(dAtA, i, fs, k, full) && fs[k - 1] == FMessages(ms)
    ensures Writing(dAtA, i, EncodeFields(fs[..k - 1]) + EncodeElements(k, ms[..|ms|]), full)
  {
    hide EncodeFields, EncodeElements;
    EncodeFieldsStep(fs, k);
    assert ms[..|ms|] == ms;
  }

  /** The element to be written next is the last of those that remain. */
  lemma ElementNext(before: Bytes, num: nat, ms: seq<Message>, n: nat)
    requires n < |ms|
    ensures before + EncodeElements(num, ms[..n + 1])
         == before + EncodeElements(num, ms[..n]) + EncodeBytes(num, Encode(ms[n]))
  {
    hide EncodeBytes, Encode;
    assert ms[..n + 1][..n] == ms[..n];
  }

  lemma ElementsWritten(dAtA: array<byte>, i: nat, fs: seq<Field>, k: nat, ms: seq<Message>, full: Bytes)
    requires 1 <= k <= |fs|
    requires Writing(dAtA, i, EncodeFields(fs[..k - 1]) + EncodeElements(k, ms[..0]), full)
    ensures AtField(dAtA, i, fs, k - 1, full)
  {
    hide EncodeFields;
    assert EncodeFields(fs[..k - 1]) + [] == EncodeFields(fs[..k - 1]);
  }

  /** A singular sub-message, omitted when absent. */
  method PutMessage(dAtA: array<byte>, i: nat, tag: byte, encoded: Bytes, ghost m: Message,
    ghost fs: seq<Field>, ghost k: nat, ghost full: Bytes)
    returns (j: nat)
    requires 1 <= k && AtField(dAtA, i, fs, k, full)
    requires fs[k - 1] == FMessage(Some(m)) && encoded == Encode(m) && tag == Tag(k, 2)
    modifies dAtA
    ensures AtField(dAtA, j, fs, k - 1, full)
  {
    hide EncodeFields, EncodeBytes, Encode;
    EncodeFieldsStep(fs, k);
    j := PutElement(dAtA, i, tag, encoded, EncodeFields(fs[..k - 1]), k, full);
  }

  lemma AbsentMessage(dAtA: array<byte>, i: nat, fs: seq<Field>, k: nat, full: Bytes)
    requires 1 <= k && AtField(dAtA, i, fs, k, full) && fs[k - 1] == FMessage(None)
    ensures AtField(dAtA, i, fs, k - 1, full)
  {
    hide EncodeFields;
    EncodeFieldsStep(fs, k);
    assert EncodeFields(fs[..k - 1]) + [] == EncodeFields(fs[..k - 1]);
  }

  lemma SizeElementsStep(ms: seq<Message>, n: nat)
    requires n < |ms|
    ensures SizeElements(ms[..0]) == 0 && ms[..|ms|] == ms
    ensures SizeElements(ms[..n + 1]) == SizeElements(ms[..n]) + SizeBytes(Size(ms[n]))
  {
    hide SizeBytes, Size;
    assert ms[..n + 1][..n] == ms[..n];
  }

  lemma NoElements(ms: seq<Message>)
    ensures SizeElements(ms[..0]) == 0 && ms[..|ms|] == ms
  {
  }

  /** A repeated string field: every element counts, empty ones too. */
  method SizeRepeated(n: nat, bs: seq<Bytes>, ghost fs: seq<Field>, ghost k: nat) returns (m: nat)
    requires 1 <= k <= |fs| && fs[k - 1] == FRepeated(bs)
    requires n == SizeFields(fs[..k - 1])
    ensures m == SizeFields(fs[..k])
  {
    hide SizeFields;
    SizeFieldsStep(fs, k);
    m := n;
    assert bs[..|bs|] == bs;
    for i := 0 to |bs|
      invariant m == n + SizeStrings(bs[..i])
    {
      assert bs[..i + 1][..i] == bs[..i];
      var l := |bs[i]|;
      m := m + 1 + l + Sov(l);
    }
  }
}
