/** The records of the wire format as trees, groups included. Skipping accepts exactly
    these, and fails exactly where the bytes leave the format. */
module Records {
  import opened Wire
  import opened WireLaws
  import opened Codec
  import opened Lexing

  // ---------------------------------------------------------------- trees

  /** One record in the sense of the wire format, its varints as they stand in the input. */
  datatype Tree =
    | Varint64(tag: Bytes, v: Bytes)
    | Fixed64(tag: Bytes, b: Bytes)
    | Delimited(tag: Bytes, prefix: Bytes, b: Bytes)
    | Group(tag: Bytes, items: seq<Tree>, end: Bytes)
    | Fixed32(tag: Bytes, b: Bytes)

  /** A tag varint of the given wire type. */
  predicate IsTag(raw: Bytes, wireType: nat) {
    IsVarint(raw) && Uint64(raw) % 8 == wireType
  }

  /** Any varint will do for a tag, a value or a length, minimal or not, and any number. */
  predicate WellFormed(t: Tree) {
    match t
    case Varint64(tag, v) => IsTag(tag, 0) && IsVarint(v)
    case Fixed64(tag, b) => IsTag(tag, 1) && |b| == 8
    case Delimited(tag, prefix, b) => IsTag(tag, 2) && IsVarint(prefix) && Uint64(prefix) == |b| < INT_LIMIT
    case Group(tag, items, end) =>
      IsTag(tag, 3) && IsTag(end, 4) && forall i :: 0 <= i < |items| ==> WellFormed(items[i])
    case Fixed32(tag, b) => IsTag(tag, 5) && |b| == 4
  }

  /** What follows the tag; a group ends with a tag of its own. */
  function Body(t: Tree): Bytes
    decreases t, 0
  {
    match t
    case Varint64(_, v) => v
    case Fixed64(_, b) => b
    case Delimited(_, prefix, b) => prefix + b
    case Group(_, items, end) => PrintAll(items) + end
    case Fixed32(_, b) => b
  }

  function Print(t: Tree): Bytes
    decreases t, 1
  {
    t.tag + Body(t)
  }

  function PrintAll(ts: seq<Tree>): Bytes {
    if ts == [] then [] else Print(ts[0]) + PrintAll(ts[1..])
  }

  /** `p` stands at index `i` of `b`. */
  ghost predicate At(b: Bytes, i: nat, p: Bytes) {
    i + |p| <= |b| && b[i..i + |p|] == p
  }

  lemma AtParts(b: Bytes, i: nat, p: Bytes, q: Bytes)
    requires At(b, i, p + q)
    ensures At(b, i, p) && At(b, i + |p|, q)
  {
    assert b[i..i + |p|] == b[i..i + |p + q|][..|p|] == p;
    assert b[i + |p|..i + |p| + |q|] == b[i..i + |p + q|][|p|..] == q;
  }

  lemma PrintNotEmpty(t: Tree)
    requires WellFormed(t)
    ensures |Print(t)| >= 1
  {
  }

  // ----------------------------------------------------- records are skipped

  /** A record that is no group is one step. */
  lemma SkipLeaf(t: Tree, b: Bytes, i: nat, depth: nat)
    requires WellFormed(t) && !t.Group? && At(b, i, Print(t))
    ensures SkipOne(b, i, depth) == Ok(Skipped(i + |Print(t)|, depth))
  {
    hide ReadVarint, IsVarint, Uint64;
    var j := i + |t.tag|;
    AtParts(b, i, t.tag, Body(t));
    VarintNotEmpty(t.tag);
    VarintReads(b, i, j);
    match t
    case Varint64(_, v) =>
      VarintNotEmpty(v);
      VarintReads(b, j, j + |v|);
    case Delimited(_, prefix, c) =>
      AtParts(b, j, prefix, c);
      VarintNotEmpty(prefix);
      VarintReads(b, j, j + |prefix|);
    case _ =>
  }

  lemma VarintNotEmpty(raw: Bytes)
    requires IsVarint(raw)
    ensures |raw| >= 1
  {
  }

  lemma SkipStep(b: Bytes, i: nat, depth: nat, s: Skipped)
    requires i < |b| < INT_LIMIT && SkipOne(b, i, depth) == Ok(s) && s.end <= |b|
    ensures SkipFrom(b, i, depth) == if s.depth == 0 then Ok(s.end) else SkipFrom(b, s.end, s.depth)
  {
    hide SkipOne;
  }

  lemma SkipGroupTag(tag: Bytes, b: Bytes, i: nat, depth: nat)
    requires At(b, i, tag) && (IsTag(tag, 3) || (IsTag(tag, 4) && depth > 0))
    ensures |tag| >= 1
    ensures SkipOne(b, i, depth) == Ok(Skipped(i + |tag|, if IsTag(tag, 3) then depth + 1 else depth - 1))
  {
    hide ReadVarint, IsVarint, Uint64;
    VarintNotEmpty(tag);
    VarintReads(b, i, i + |tag|);
  }

  /** Skipping a record moves past it: at depth 0 it is done, inside a group it goes on. */
  lemma {:induction false} SkipTree(t: Tree, b: Bytes, i: nat, depth: nat)
    requires WellFormed(t) && At(b, i, Print(t)) && |b| < INT_LIMIT
    ensures SkipFrom(b, i, depth) ==
            if depth == 0 then Ok(i + |Print(t)|) else SkipFrom(b, i + |Print(t)|, depth)
    decreases t
  {
    hide SkipOne, SkipFrom, IsTag, PrintAll;
    PrintNotEmpty(t);
    match t
    case Group(open, items, end) =>
      var body := PrintAll(items);
      var from := i + |open|;
      var to := from + |body|;
      AtParts(b, i, open, body + end);
      AtParts(b, from, body, end);
      SkipGroupTag(open, b, i, depth);
      GroupTags(open, end);
      SkipStep(b, i, depth, Skipped(from, depth + 1));
      SkipTrees(items, b, from, depth + 1);
      SkipGroupTag(end, b, to, depth + 1);
      SkipStep(b, to, depth + 1, Skipped(to + |end|, depth));
    case _ =>
      SkipLeaf(t, b, i, depth);
      SkipStep(b, i, depth, Skipped(i + |Print(t)|, depth));
  }

  lemma GroupTags(open: Bytes, end: Bytes)
    requires IsTag(open, 3) && IsTag(end, 4)
    ensures !IsTag(end, 3)
  {
  }

  lemma {:induction false} SkipTrees(ts: seq<Tree>, b: Bytes, i: nat, depth: nat)
    requires depth > 0 && At(b, i, PrintAll(ts)) && |b| < INT_LIMIT
    requires forall j :: 0 <= j < |ts| ==> WellFormed(ts[j])
    ensures SkipFrom(b, i, depth) == SkipFrom(b, i + |PrintAll(ts)|, depth)
    decreases ts
  {
    hide SkipFrom, Print, WellFormed;
    if ts != [] {
      AtParts(b, i, Print(ts[0]), PrintAll(ts[1..]));
      SkipTree(ts[0], b, i, depth);
      SkipTrees(ts[1..], b, i + |Print(ts[0])|, depth);
    }
  }

  /** The length of one record, groups nested to any depth, whatever follows it. */
  lemma SkipReadsOneRecord(t: Tree, rest: Bytes)
    requires WellFormed(t) && |Print(t) + rest| < INT_LIMIT
    ensures Skip(Print(t) + rest) == Ok(|Print(t)|)
  {
    hide Print, WellFormed, SkipFrom;
    SkipTree(t, Print(t) + rest, 0, 0);
  }

  // ------------------------------------------------- only records are skipped

  /** One step over whole bytes: a record that is no group, or a group's first or last tag. */
  datatype Step = Leaf(t: Tree) | Open(tag: Bytes) | Close(tag: Bytes)

  function PrintStep(p: Step): Bytes {
    match p
    case Leaf(t) => Print(t)
    case Open(tag) => tag
    case Close(tag) => tag
  }

  /** The step that `SkipOne` took. */
  lemma StepTaken(b: Bytes, i: nat, depth: nat) returns (p: Step)
    requires i <= |b| && SkipOne(b, i, depth).Ok? && SkipOne(b, i, depth).value.end <= |b| < INT_LIMIT
    ensures b[i..SkipOne(b, i, depth).value.end] == PrintStep(p)
    ensures SkipOne(b, i, depth).value.depth
         == match p case Leaf(_) => depth case Open(_) => depth + 1 case Close(_) => depth - 1
    ensures match p
            case Leaf(t) => WellFormed(t) && !t.Group?
            case Open(tag) => IsTag(tag, 3)
            case Close(tag) => IsTag(tag, 4) && depth > 0
  {
    hide ReadVarint, IsVarint, Uint64;
    ReadsVarints(b, i);
    var s := SkipOne(b, i, depth).value;
    var j := i + ReadVarint(b[i..]).value.n;
    var tag, wireType := b[i..j], ReadVarint(b[i..]).value.v % 8;
    ReadsVarints(b, j);
    if wireType == 0 {
      p := Leaf(Varint64(tag, b[j..s.end]));
    } else if wireType == 1 {
      p := Leaf(Fixed64(tag, b[j..s.end]));
    } else if wireType == 2 {
      var k := j + ReadVarint(b[j..]).value.n;
      assert b[j..k] + b[k..s.end] == b[j..s.end];
      p := Leaf(Delimited(tag, b[j..k], b[k..s.end]));
    } else if wireType == 3 {
      p := Open(tag);
    } else if wireType == 4 {
      p := Close(tag);
    } else {
      p := Leaf(Fixed32(tag, b[j..s.end]));
    }
    assert tag + b[j..s.end] == b[i..s.end];
    if p.Leaf? {
      assert Body(p.t) == b[j..s.end];
    }
  }

  /** The rest of an open group: its remaining records and its last tag. */
  datatype Level = Level(items: seq<Tree>, end: Bytes)

  predicate ProperLevel(l: Level) {
    IsTag(l.end, 4) && forall i :: 0 <= i < |l.items| ==> WellFormed(l.items[i])
  }

  function PrintLevel(l: Level): Bytes {
    PrintAll(l.items) + l.end
  }

  /** The rests of the open groups, innermost first. */
  function PrintLevels(ls: seq<Level>): Bytes {
    if ls == [] then [] else PrintLevel(ls[0]) + PrintLevels(ls[1..])
  }

  predicate ProperLevels(ls: seq<Level>) {
    forall i :: 0 <= i < |ls| ==> ProperLevel(ls[i])
  }

  lemma AddItem(t: Tree, ls: seq<Level>) returns (r: seq<Level>)
    requires WellFormed(t) && ls != [] && ProperLevels(ls)
    ensures |r| == |ls| && ProperLevels(r) && PrintLevels(r) == Print(t) + PrintLevels(ls)
  {
    hide Print, IsTag, WellFormed;
    var l := Level([t] + ls[0].items, ls[0].end);
    r := [l] + ls[1..];
    assert l.items[1..] == ls[0].items;
    assert r[1..] == ls[1..];
    calc {
      PrintLevels(r);
      Print(t) + PrintAll(ls[0].items) + ls[0].end + PrintLevels(ls[1..]);
      Print(t) + (PrintAll(ls[0].items) + ls[0].end + PrintLevels(ls[1..]));
    }
  }

  lemma CloseLevel(tag: Bytes, ls: seq<Level>) returns (r: seq<Level>)
    requires IsTag(tag, 4) && ProperLevels(ls)
    ensures |r| == |ls| + 1 && ProperLevels(r) && PrintLevels(r) == tag + PrintLevels(ls)
  {
    hide IsTag, WellFormed;
    r := [Level([], tag)] + ls;
    assert r[1..] == ls;
    assert PrintLevel(r[0]) == tag;
  }

  lemma OpenLevel(tag: Bytes, ls: seq<Level>) returns (t: Tree)
    requires IsTag(tag, 3) && ls != [] && ProperLevels(ls)
    ensures WellFormed(t) && ProperLevels(ls[1..]) && Print(t) + PrintLevels(ls[1..]) == tag + PrintLevels(ls)
  {
    hide IsTag, PrintAll;
    t := Group(tag, ls[0].items, ls[0].end);
    calc {
      Print(t) + PrintLevels(ls[1..]);
      tag + (PrintAll(ls[0].items) + ls[0].end) + PrintLevels(ls[1..]);
      tag + PrintLevels(ls);
    }
  }

  /** What was skipped inside open groups is the rest of each of them. */
  lemma {:induction false} LevelsSkipped(b: Bytes, i: nat, depth: nat, n: nat) returns (ls: seq<Level>)
    requires i <= n <= |b| < INT_LIMIT && depth > 0 && SkipFrom(b, i, depth) == Ok(n)
    ensures |ls| == depth && ProperLevels(ls) && PrintLevels(ls) == b[i..n]
    decreases |b| - i
  {
    hide SkipOne, ProperLevels, IsTag, WellFormed, PrintLevels, Print;
    var s := SkipOne(b, i, depth).value;
    SkipGrows(b, i, depth);
    var p := StepTaken(b, i, depth);
    ls := [];
    NoLevels();
    if s.depth > 0 {
      ls := LevelsSkipped(b, s.end, s.depth, n);
    }
    assert b[i..s.end] + b[s.end..n] == b[i..n];
    match p
    case Leaf(t) =>
      ls := AddItem(t, ls);
    case Open(tag) =>
      var t := OpenLevel(tag, ls);
      ls := AddItem(t, ls[1..]);
    case Close(tag) =>
      ls := CloseLevel(tag, ls);
  }

  lemma NoLevels()
    ensures ProperLevels([]) && PrintLevels([]) == []
  {
  }

  lemma SkipGrows(b: Bytes, i: nat, depth: nat)
    requires i <= |b| && SkipFrom(b, i, depth).Ok? && SkipFrom(b, i, depth).value <= |b|
    ensures i < |b| && SkipOne(b, i, depth).Ok?
    ensures SkipOne(b, i, depth).value.end <= SkipFrom(b, i, depth).value
  {
    hide SkipOne;
  }

  lemma RecordSkipped(b: Bytes, n: nat) returns (t: Tree)
    requires n <= |b| < INT_LIMIT && Skip(b) == Ok(n)
    ensures WellFormed(t) && Print(t) == b[..n]
  {
    hide SkipOne, ProperLevels, IsTag, WellFormed, PrintLevels, Print;
    var s := SkipOne(b, 0, 0).value;
    SkipGrows(b, 0, 0);
    var p := StepTaken(b, 0, 0);
    match p
    case Leaf(leaf) =>
      t := leaf;
    case Open(tag) =>
      var ls := LevelsSkipped(b, s.end, 1, n);
      t := OpenLevel(tag, ls);
      NoLevels();
      assert ls[1..] == [];
      assert Print(t) + [] == Print(t);
      assert b[..s.end] + b[s.end..n] == b[..n];
  }

  /** Skipping finds the end of a record exactly where there is one: the bytes up to it
      are one record of the wire format, groups nested and closed. */
  lemma SkipsExactlyRecords(b: Bytes, n: nat)
    requires n <= |b| < INT_LIMIT
    ensures Skip(b) == Ok(n) <==> exists t :: WellFormed(t) && Print(t) == b[..n]
  {
    hide Skip, Print, WellFormed;
    if Skip(b) == Ok(n) {
      var t := RecordSkipped(b, n);
    }
    if t :| WellFormed(t) && Print(t) == b[..n] {
      assert b[..n] + b[n..] == b;
      SkipReadsOneRecord(t, b[n..]);
    }
  }

  // ------------------------------------------------------- unknown records

  /** The field number that the decoder sees: 32 bits of the number are kept. */
  function NumberOf(t: Tree): nat {
    Uint64(t.tag) / 8 % 0x1_0000_0000
  }

  /** A record whose number the decoder takes for none of the schema's; it must be a
      positive int32. */
  predicate Foreign(s: Schema, t: Tree) {
    1 <= NumberOf(t) < 0x8000_0000 && !Knows(s, NumberOf(t))
  }

  lemma TagOfTree(t: Tree, rest: Bytes)
    requires WellFormed(t)
    ensures ReadVarint(Print(t) + rest) == Ok(Num(Uint64(t.tag), |t.tag|)) && Uint64(t.tag) % 8 != 4
  {
    hide ReadVarint, Uint64, Body;
    var b, j := Print(t) + rest, |t.tag|;
    assert b[0..j] == t.tag && b[0..] == b;
    VarintNotEmpty(t.tag);
    VarintReads(b, 0, j);
  }

  /** The decoder takes the unknown branch for exactly the foreign records, and keeps
      them verbatim. */
  lemma UnknownTree(s: Schema, t: Tree, rest: Bytes, at: nat)
    requires WellFormed(t) && |Print(t) + rest| < INT_LIMIT
    ensures var r := Lex(s, Print(t) + rest, at);
            && (r.Ok? && r.value.rec.Unknown? <==> Foreign(s, t))
            && (Foreign(s, t) ==> r == Ok(Lexeme(Unknown(Print(t)), |Print(t)|)))
  {
    hide ReadVarint, ReadHeader, Print, Skip, Lex, WellFormed, ReadKnown, Uint64;
    var b := Print(t) + rest;
    TagOfTree(t, rest);
    SkipReadsOneRecord(t, rest);
    BranchOfTag(s, b, at);
    KeptVerbatim(s, b, at);
    assert b[..|Print(t)|] == Print(t);
  }

  /** A concatenation of records can be the unknown fields of a valid message exactly when
      every one of them is foreign. */
  lemma {:induction false} UnknownTrees(s: Schema, ts: seq<Tree>)
    requires forall j :: 0 <= j < |ts| ==> WellFormed(ts[j])
    requires |PrintAll(ts)| < INT_LIMIT
    ensures ValidUnknown(s, PrintAll(ts)) <==> forall j :: 0 <= j < |ts| ==> Foreign(s, ts[j])
  {
    hide Lex, Print, WellFormed, Foreign;
    if ts != [] {
      UnknownTrees(s, ts[1..]);
      PrintNotEmpty(ts[0]);
      UnknownTree(s, ts[0], PrintAll(ts[1..]), 0);
      assert PrintAll(ts)[|Print(ts[0])|..] == PrintAll(ts[1..]);
      assert forall j :: 1 <= j < |ts| ==> ts[j] == ts[1..][j - 1];
    }
  }
}
