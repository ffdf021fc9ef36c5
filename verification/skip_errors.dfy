/** Which error skipping a record reports, and where: the first place at which the bytes
    leave the wire format. */
module SkipErrors {
  import opened Wire
  import opened WireLaws
  import opened Records

  /** A group that is still open: its first tag and the records read in it. */
  datatype Frame = Frame(tag: Bytes, items: seq<Tree>)

  predicate ProperFrame(f: Frame) {
    IsTag(f.tag, 3) && forall i :: 0 <= i < |f.items| ==> WellFormed(f.items[i])
  }

  function PrintFrame(f: Frame): Bytes {
    f.tag + PrintAll(f.items)
  }

  /** The open groups, outermost first. */
  function PrintFrames(fs: seq<Frame>): Bytes {
    if fs == [] then [] else PrintFrames(fs[..|fs| - 1]) + PrintFrame(fs[|fs| - 1])
  }

  /** The input up to index `i` is the groups `fs`, all of them still open. */
  ghost predicate OpenGroups(b: Bytes, i: nat, fs: seq<Frame>) {
    i <= |b| && b[..i] == PrintFrames(fs) && forall k :: 0 <= k < |fs| ==> ProperFrame(fs[k])
  }

  /** The payload ends at `end`, where `depth` groups are open: past every int, or past
      the input inside a group. A record outside a group may end past the input here; the
      caller looks at that. */
  predicate EndStops(b: Bytes, end: nat, depth: nat, e: Error) {
    || (end >= 0x8000_0000_0000_0000 && e == InvalidLength)
    || (|b| < end < 0x8000_0000_0000_0000 && depth > 0 && e == UnexpectedEOF)
  }

  /** The length prefix is the bytes `j..k`. */
  predicate LengthStops(b: Bytes, j: nat, k: nat, depth: nat, e: Error) {
    j < k <= |b| && IsVarint(b[j..k]) &&
    var len := Uint64(b[j..k]);
    if len >= 0x8000_0000_0000_0000 then e == InvalidLength else EndStops(b, k + len, depth, e)
  }

  /** The tag is the bytes `i..j`. */
  ghost predicate TagStops(b: Bytes, i: nat, j: nat, depth: nat, e: Error) {
    i < j <= |b| && IsVarint(b[i..j]) &&
    match Uint64(b[i..j]) % 8
    case 0 => NoVarint(b, j, e)
    case 1 => EndStops(b, j + 8, depth, e)
    case 2 => NoVarint(b, j, e) || exists k :: LengthStops(b, j, k, depth, e)
    case 3 => false
    case 4 => depth == 0 && e == UnexpectedEndOfGroup
    case 5 => EndStops(b, j + 4, depth, e)
    case w => e == IllegalWireType(w)
  }

  /** No record and no end of a group can be read at index `i`. */
  ghost predicate Stops(b: Bytes, i: nat, depth: nat, e: Error) {
    i <= |b| && (NoVarint(b, i, e) || exists j :: TagStops(b, i, j, depth, e))
  }

  lemma TagStopsHere(b: Bytes, i: nat, j: nat, depth: nat, e: Error)
    requires |b| < INT_LIMIT && TagStops(b, i, j, depth, e)
    ensures SkipFrom(b, i, depth) == Err(e)
  {
    hide ReadVarint, IsVarint, Uint64, NoVarint;
    VarintReads(b, i, j);
    var w := Uint64(b[i..j]) % 8;
    if (w == 0 || w == 2) && NoVarint(b, j, e) {
      NoVarintFails(b, j, e);
    } else if w == 2 {
      var k :| LengthStops(b, j, k, depth, e);
      VarintReads(b, j, k);
    }
  }

  lemma StopsHere(b: Bytes, i: nat, depth: nat, e: Error)
    requires |b| < INT_LIMIT && Stops(b, i, depth, e)
    ensures SkipFrom(b, i, depth) == Err(e)
  {
    hide ReadVarint, TagStops;
    if NoVarint(b, i, e) {
      NoVarintFails(b, i, e);
    } else {
      var j :| TagStops(b, i, j, depth, e);
      TagStopsHere(b, i, j, depth, e);
    }
  }

  /** Skipping comes to the end of the open groups with all of them counted. */
  lemma {:induction false} ReachesOpenGroups(b: Bytes, i: nat, fs: seq<Frame>)
    requires |b| < INT_LIMIT && OpenGroups(b, i, fs)
    ensures Skip(b) == SkipFrom(b, i, |fs|)
    decreases |fs|
  {
    hide SkipFrom, SkipOne, IsTag, WellFormed, PrintAll;
    if fs != [] {
      var n := |fs| - 1;
      var f := fs[n];
      var j := |PrintFrames(fs[..n])|;
      assert b[..j] == b[..i][..j] == PrintFrames(fs[..n]);
      ReachesOpenGroups(b, j, fs[..n]);
      assert b[j..i] == b[..i][j..] == PrintFrame(f);
      AtParts(b, j, f.tag, PrintAll(f.items));
      SkipGroupTag(f.tag, b, j, n);
      SkipStep(b, j, n, Skipped(j + |f.tag|, n + 1));
      SkipTrees(f.items, b, j + |f.tag|, n + 1);
    }
  }

  lemma {:induction false} PrintAllSnoc(ts: seq<Tree>, t: Tree)
    ensures PrintAll(ts + [t]) == PrintAll(ts) + Print(t)
  {
    hide Print;
    if ts == [] {
      assert PrintAll([]) == [];
      assert PrintAll([t]) == Print(t) + [];
    } else {
      PrintAllSnoc(ts[1..], t);
      assert (ts + [t])[1..] == ts[1..] + [t];
    }
  }

  /** The open groups after one more record in the innermost of them. */
  lemma AddToInnermost(b: Bytes, i: nat, fs: seq<Frame>, t: Tree, to: nat) returns (gs: seq<Frame>)
    requires OpenGroups(b, i, fs) && fs != [] && WellFormed(t)
    requires i <= to <= |b| && b[i..to] == Print(t)
    ensures |gs| == |fs| && OpenGroups(b, to, gs)
  {
    hide IsTag, WellFormed, Print, PrintAll;
    var n := |fs| - 1;
    var f := Frame(fs[n].tag, fs[n].items + [t]);
    gs := fs[..n] + [f];
    PrintAllSnoc(fs[n].items, t);
    assert gs[..n] == fs[..n];
    calc {
      PrintFrames(gs);
      PrintFrames(fs[..n]) + (f.tag + (PrintAll(fs[n].items) + Print(t)));
      PrintFrames(fs[..n]) + PrintFrame(fs[n]) + Print(t);
      b[..i] + b[i..to];
      b[..to];
    }
  }

  lemma AddFrame(b: Bytes, i: nat, fs: seq<Frame>, tag: Bytes, to: nat) returns (gs: seq<Frame>)
    requires OpenGroups(b, i, fs) && IsTag(tag, 3)
    requires i <= to <= |b| && b[i..to] == tag
    ensures |gs| == |fs| + 1 && OpenGroups(b, to, gs)
  {
    hide IsTag, WellFormed;
    gs := fs + [Frame(tag, [])];
    assert gs[..|fs|] == fs;
    assert PrintFrame(gs[|fs|]) == tag;
    assert b[..i] + b[i..to] == b[..to];
  }

  /** A group that ends is a record in the group around it. */
  lemma CloseInnermost(b: Bytes, i: nat, fs: seq<Frame>, tag: Bytes, to: nat) returns (gs: seq<Frame>)
    requires OpenGroups(b, i, fs) && |fs| >= 2 && IsTag(tag, 4)
    requires i <= to <= |b| && b[i..to] == tag
    ensures |gs| == |fs| - 1 && OpenGroups(b, to, gs)
  {
    hide IsTag, Print, PrintAll;
    var n := |fs| - 1;
    var f := fs[n];
    var t := Group(f.tag, f.items, tag);
    var j := |PrintFrames(fs[..n])|;
    assert b[..j] == b[..i][..j] == PrintFrames(fs[..n]);
    assert b[j..i] == b[..i][j..] == PrintFrame(f);
    assert b[j..to] == b[j..i] + b[i..to];
    GroupPrints(f, tag);
    gs := AddToInnermost(b, j, fs[..n], t, to);
  }

  lemma GroupPrints(f: Frame, end: Bytes)
    ensures Print(Group(f.tag, f.items, end)) == PrintFrame(f) + end
  {
    hide PrintAll;
    assert f.tag + (PrintAll(f.items) + end) == f.tag + PrintAll(f.items) + end;
  }

  lemma StepFails(b: Bytes, i: nat, depth: nat, e: Error)
    requires i <= |b| < INT_LIMIT && SkipOne(b, i, depth) == Err(e)
    ensures Stops(b, i, depth, e)
  {
    hide ReadVarint, IsVarint, Uint64, NoVarint;
    ReadsVarints(b, i);
    if ReadVarint(b[i..]).Ok? {
      var j := i + ReadVarint(b[i..]).value.n;
      ReadsVarints(b, j);
      if ReadVarint(b[j..]).Ok? && Uint64(b[i..j]) % 8 == 2 {
        assert LengthStops(b, j, j + ReadVarint(b[j..]).value.n, depth, e);
      }
      assert TagStops(b, i, j, depth, e);
    }
  }

  lemma StepFailsFirst(b: Bytes, i: nat, depth: nat, e: Error)
    requires i <= |b| < INT_LIMIT && SkipOne(b, i, depth).Err? && SkipFrom(b, i, depth) == Err(e)
    ensures Stops(b, i, depth, e)
  {
    hide SkipOne, Stops;
    if i == |b| {
      NothingLeft(b, depth);
    } else {
      StepFails(b, i, depth, e);
    }
  }

  lemma NothingLeft(b: Bytes, depth: nat)
    ensures Stops(b, |b|, depth, UnexpectedEOF)
  {
  }

  lemma SkipFromStep(b: Bytes, i: nat, depth: nat)
    requires i <= |b| < INT_LIMIT && SkipOne(b, i, depth).Ok?
    ensures i < |b|
    ensures var s := SkipOne(b, i, depth).value;
            SkipFrom(b, i, depth) ==
              if s.end >= INT_LIMIT then Err(InvalidLength)
              else if s.depth == 0 then Ok(s.end)
              else if s.end > |b| then Err(UnexpectedEOF)
              else SkipFrom(b, s.end, s.depth)
  {
  }

  lemma EndFails(b: Bytes, i: nat, depth: nat, e: Error)
    requires i <= |b| < INT_LIMIT && SkipOne(b, i, depth).Ok?
    requires SkipOne(b, i, depth).value.end > |b| && SkipFrom(b, i, depth) == Err(e)
    ensures Stops(b, i, depth, e)
  {
    hide ReadVarint, IsVarint, Uint64, NoVarint, SkipFrom;
    SkipFromStep(b, i, depth);
    ReadsVarints(b, i);
    var j := i + ReadVarint(b[i..]).value.n;
    ReadsVarints(b, j);
    if Uint64(b[i..j]) % 8 == 2 {
      assert LengthStops(b, j, j + ReadVarint(b[j..]).value.n, depth, e);
    }
    assert TagStops(b, i, j, depth, e);
  }

  /** A failing skip stops at some place behind open groups. */
  lemma {:induction false} FindsStop(b: Bytes, i: nat, fs: seq<Frame>, e: Error) returns (j: nat, gs: seq<Frame>)
    requires |b| < INT_LIMIT && OpenGroups(b, i, fs) && SkipFrom(b, i, |fs|) == Err(e)
    ensures OpenGroups(b, j, gs) && Stops(b, j, |gs|, e)
    decreases |b| - i
  {
    hide SkipOne, PrintFrames, ProperFrame, Stops, IsTag, WellFormed, Print;
    j, gs := i, fs;
    var depth := |fs|;
    if SkipOne(b, i, depth).Err? {
      StepFailsFirst(b, i, depth, e);
      return;
    }
    var s := SkipOne(b, i, depth).value;
    SkipFromStep(b, i, depth);
    if s.end > |b| {
      EndFails(b, i, depth, e);
      return;
    }
    var p := StepTaken(b, i, depth);
    match p {
    case Leaf(t) =>
      gs := AddToInnermost(b, i, fs, t, s.end);
    case Open(tag) =>
      gs := AddFrame(b, i, fs, tag, s.end);
    case Close(tag) =>
      gs := CloseInnermost(b, i, fs, tag, s.end);
    }
    j, gs := FindsStop(b, s.end, gs, e);
  }

  /** Skipping a record fails exactly when the input is some open groups followed by bytes
      that start neither a record nor the end of a group, and with the error that says why. */
  lemma SkipFailsExactly(b: Bytes, e: Error)
    requires |b| < INT_LIMIT
    ensures Skip(b) == Err(e) <==> exists i, fs :: OpenGroups(b, i, fs) && Stops(b, i, |fs|, e)
  {
    hide SkipFrom, Stops;
    if Skip(b) == Err(e) {
      assert OpenGroups(b, 0, []);
      var i, fs := FindsStop(b, 0, [], e);
    }
    if i, fs :| OpenGroups(b, i, fs) && Stops(b, i, |fs|, e) {
      ReachesOpenGroups(b, i, fs);
      StopsHere(b, i, |fs|, e);
    }
  }

  /** The record at the front of `b`, outside any group, ends at `n`, past the input. */
  ghost predicate CutShort(b: Bytes, n: nat) {
    |b| < n < 0x8000_0000_0000_0000 && exists j :: PayloadEnds(b, j, n)
  }

  ghost predicate PayloadEnds(b: Bytes, j: nat, n: nat) {
    0 < j <= |b| && IsVarint(b[0..j]) &&
    match Uint64(b[0..j]) % 8
    case 1 => n == j + 8
    case 2 => exists k :: j < k <= |b| && IsVarint(b[j..k]) && n == k + Uint64(b[j..k])
    case 5 => n == j + 4
    case _ => false
  }

  /** Skipping ends past the input exactly for a record that the input cuts short. */
  lemma SkipsPastExactly(b: Bytes, n: nat)
    requires |b| < n
    ensures Skip(b) == Ok(n) <==> CutShort(b, n)
  {
    hide PayloadEnds, SkipOne;
    if Skip(b) == Ok(n) {
      PastInOneStep(b, 0, 0, n);
      PastTheEnd(b, n);
    }
    if CutShort(b, n) {
      var j :| PayloadEnds(b, j, n);
      PayloadSkipped(b, j, n);
    }
  }

  lemma PastTheEnd(b: Bytes, n: nat)
    requires |b| < n && SkipOne(b, 0, 0) == Ok(Skipped(n, 0))
    ensures exists j :: PayloadEnds(b, j, n)
  {
    hide ReadVarint, IsVarint, Uint64;
    ReadsVarints(b, 0);
    var j := ReadVarint(b[0..]).value.n;
    ReadsVarints(b, j);
    if Uint64(b[0..j]) % 8 == 2 {
      var k := j + ReadVarint(b[j..]).value.n;
      assert j < k <= |b| && IsVarint(b[j..k]) && n == k + Uint64(b[j..k]);
    }
    assert PayloadEnds(b, j, n);
  }

  lemma PayloadSkipped(b: Bytes, j: nat, n: nat)
    requires |b| < n && n < INT_LIMIT && PayloadEnds(b, j, n)
    ensures Skip(b) == Ok(n)
  {
    hide ReadVarint, IsVarint, Uint64;
    VarintReads(b, 0, j);
    if Uint64(b[0..j]) % 8 == 2 {
      var k :| j < k <= |b| && IsVarint(b[j..k]) && n == k + Uint64(b[j..k]);
      VarintReads(b, j, k);
    }
  }

  /** Only the last step can end past the input, and outside any group it is the first. */
  lemma {:induction false} PastInOneStep(b: Bytes, i: nat, depth: nat, n: nat)
    requires i <= |b| < n && SkipFrom(b, i, depth) == Ok(n)
    ensures depth == 0 && SkipOne(b, i, depth) == Ok(Skipped(n, 0)) && n < INT_LIMIT
    decreases |b| - i
  {
    var s := SkipOne(b, i, depth).value;
    if s.depth != 0 {
      PastInOneStep(b, s.end, s.depth, n);
    }
  }
}
