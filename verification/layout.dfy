/** What an encoding is, tag byte by tag byte, without a schema: the terms in which each
    class states what `marshal` writes for which variable. */
module Layout {
  import opened Wire
  import opened Codec

  /** A string or byte field, omitted when empty. */
  function Rec(tag: byte, b: Bytes): Bytes {
    if b == [] then [] else [tag] + Varint(|b|) + b
  }

  /** A list, none of whose elements is omitted. */
  function Recs(tag: byte, bs: seq<Bytes>): Bytes {
    if bs == [] then [] else [tag] + Varint(|bs[0]|) + bs[0] + Recs(tag, bs[1..])
  }

  /** A varint field, omitted when zero. */
  function RecVarint(tag: byte, v: nat): Bytes {
    if v == 0 then [] else [tag] + Varint(v)
  }

  lemma FieldStep(fs: seq<Field>, k: nat)
    requires 1 <= k <= |fs|
    ensures EncodeFields(fs[..k]) == EncodeFields(fs[..k - 1]) + EncodeField(k, fs[k - 1])
    ensures k == 1 ==> EncodeFields(fs[..k]) == EncodeField(k, fs[k - 1])
  {
    hide EncodeField;
    assert fs[..k][..k - 1] == fs[..k - 1];
    if k == 1 {
      assert [] + EncodeField(k, fs[k - 1]) == EncodeField(k, fs[k - 1]);
    }
  }

  lemma BytesForm(tag: byte, k: nat, b: Bytes)
    requires tag as int == 8 * k + 2
    ensures EncodeField(k, FBytes(b)) == Rec(tag, b)
  {
    hide Varint;
  }

  lemma VarintForm(tag: byte, k: nat, v: nat)
    requires tag as int == 8 * k
    ensures EncodeField(k, FUint64(v)) == RecVarint(tag, v)
  {
    hide Varint;
  }

  lemma {:induction false} RecsSnoc(tag: byte, bs: seq<Bytes>, b: Bytes)
    ensures Recs(tag, bs + [b]) == Recs(tag, bs) + ([tag] + Varint(|b|) + b)
  {
    hide Varint;
    if bs == [] {
      assert Recs(tag, [b]) == [tag] + Varint(|b|) + b + [];
    } else {
      assert (bs + [b])[1..] == bs[1..] + [b];
      RecsSnoc(tag, bs[1..], b);
    }
  }

  lemma {:induction false} StringsForm(tag: byte, k: nat, bs: seq<Bytes>)
    requires tag as int == 8 * k + 2
    ensures EncodeField(k, FRepeated(bs)) == Recs(tag, bs)
    decreases |bs|
  {
    hide Varint;
    if bs != [] {
      var n := |bs| - 1;
      StringsForm(tag, k, bs[..n]);
      RecsSnoc(tag, bs[..n], bs[n]);
      assert bs[..n] + [bs[n]] == bs;
    }
  }

  function Encodings(ms: seq<Message>): (es: seq<Bytes>)
    ensures |es| == |ms|
  {
    seq(|ms|, i requires 0 <= i < |ms| => Encode(ms[i]))
  }

  lemma {:induction false} ListForm(tag: byte, k: nat, ms: seq<Message>)
    requires tag as int == 8 * k + 2
    ensures EncodeField(k, FMessages(ms)) == Recs(tag, Encodings(ms))
    decreases |ms|
  {
    hide Varint, Encode;
    if ms != [] {
      var n := |ms| - 1;
      ListForm(tag, k, ms[..n]);
      RecsSnoc(tag, Encodings(ms[..n]), Encode(ms[n]));
      assert Encodings(ms[..n]) + [Encode(ms[n])] == Encodings(ms);
    }
  }

  lemma MessageForm(tag: byte, k: nat, m: Option<Message>)
    requires tag as int == 8 * k + 2
    ensures EncodeField(k, FMessage(m)) == Recs(tag, if m.None? then [] else [Encode(m.value)])
  {
    hide Varint, Encode;
    if m.Some? {
      assert Recs(tag, [Encode(m.value)]) == EncodeBytes(k, Encode(m.value)) + [];
    }
  }

  lemma BoolForm(tag: byte, k: nat, v: bool)
    requires tag as int == 8 * k
    ensures EncodeField(k, FUint64(if v then 1 else 0)) == if v then [tag, 1] else []
  {
  }

  lemma GapForm(k: nat)
    ensures EncodeField(k, FBytes([])) == [] && EncodeFields([]) == []
  {
  }
}
