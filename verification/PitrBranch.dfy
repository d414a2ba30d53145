/** Branching a new stream off a recovered point, and retiring a stream its child replaces. */
module PitrBranch {
  import opened Base
  import opened PitrSegment
  import opened PitrChain
  import opened PitrArchive
  import opened PitrReplay

  datatype Metadata = Metadata(
    spec: Spec, parentTimeline: Option<TimelineId>, branchIndex: Option<nat>, generation: nat, configIndex: nat)

  datatype Backup = Backup(index: nat, term: nat, generation: nat, configIndex: nat, hash: Hash)

  datatype BranchError =
    | Parent(error: ArchiveError) | BaselineIndexMismatch | BaselineTermMismatch | InvalidMetadata
    | WrongParent | BoundaryMismatch | TermMismatch | TimelineNotRotated | RetiredPathExists | SourceMissing
    | MovedStreamChanged

  predicate ValidMetadata(m: Metadata) {
    && SpecError(m.spec).None? && m.generation != 0 && m.configIndex <= m.spec.baselineIndex
    && (m.parentTimeline.Some? <==> m.branchIndex.Some?)
    && (m.parentTimeline.Some? ==>
       m.parentTimeline.value != m.spec.timeline && m.branchIndex.value == m.spec.baselineIndex)
  }

  // ---------------------------------------------------------------- a timeline of its own

  /** Exclusive or with 0x80. */
  function FlipTopBit(b: byte): byte {
    if b < 0x80 then b + 0x80 else b - 0x80
  }

  function NonZero(t: TimelineId): TimelineId
    requires |t| == TIMELINE_BYTES
  {
    if t == Zeros(TIMELINE_BYTES) then t[0 := 1] else t
  }

  /** Random bytes made non-zero, and changed if they happen to be the parent's. */
  function NewTimeline(random: Bytes, parent: TimelineId): TimelineId
    requires |random| == TIMELINE_BYTES
  {
    var t := NonZero(random);
    if t == parent then NonZero(t[0 := FlipTopBit(t[0])]) else t
  }

  /** Whatever the random bytes, the new timeline is neither zero nor the parent's. */
  lemma NewTimelineIsNew(random: Bytes, parent: TimelineId)
    requires |random| == TIMELINE_BYTES
    ensures var t := NewTimeline(random, parent);
            |t| == TIMELINE_BYTES && t != Zeros(TIMELINE_BYTES) && t != parent
  {
    var t := NonZero(random);
    assert random == Zeros(TIMELINE_BYTES) ==> t[0] == 1 && Zeros(TIMELINE_BYTES)[0] == 0;
    if t == parent {
      var flipped := t[0 := FlipTopBit(t[0])];
      assert flipped[0] != parent[0];
      if flipped == Zeros(TIMELINE_BYTES) {
        assert t[0] == FlipTopBit(flipped[0]) == 0x80;
        assert NonZero(flipped)[0] == 1 && Zeros(TIMELINE_BYTES)[0] == 0;
      }
    }
  }

  // ---------------------------------------------------------------- branching

  function TermAt(c: Codec, parent: Metadata, files: Files, f: Frontier, index: nat): Result<nat, BranchError> {
    if index < parent.spec.baselineIndex || index > f.index then Err(Parent(TargetUnavailable))
    else if index == parent.spec.baselineIndex then Ok(parent.spec.baselineTerm)
    else
      match ReadSegment(c, parent.spec, files, f, index)
      case Err(e) => Err(Parent(e))
      case Ok(s) => if s.record.index != index then Err(Parent(TargetUnavailable)) else Ok(s.record.term)
  }

  function InitializeBranch(
      c: Codec, parent: Metadata, files: Files, f: Frontier, index: nat, backup: Backup, random: Bytes)
    : Result<Metadata, BranchError>
    requires |random| == TIMELINE_BYTES
  {
    match TermAt(c, parent, files, f, index)
    case Err(e) => Err(e)
    case Ok(term) =>
      if backup.index != index then Err(BaselineIndexMismatch)
      else if backup.term != term then Err(BaselineTermMismatch)
      else
        var spec := Spec(NewTimeline(random, parent.spec.timeline), backup.index, backup.term, backup.hash);
        var m := Metadata(spec, Some(parent.spec.timeline), Some(index), backup.generation, backup.configIndex);
        if ValidMetadata(m) then Ok(m) else Err(InvalidMetadata)
  }

  /** An accepted branch starts at the branch index with the term the parent chain has there,
      on a timeline of its own. */
  lemma BranchIsRooted(c: Codec, parent: Metadata, files: Files, f: Frontier, index: nat, backup: Backup, random: Bytes,
                       held: seq<Segment>, known: nat)
    requires Lawful(c) && Backed(c, parent.spec, files, f, held, known) && |random| == TIMELINE_BYTES
    requires InitializeBranch(c, parent, files, f, index, backup, random).Ok?
    ensures var m := InitializeBranch(c, parent, files, f, index, backup, random).value;
            && ValidMetadata(m) && m.parentTimeline == Some(parent.spec.timeline) && m.branchIndex == Some(index)
            && m.spec.timeline != parent.spec.timeline && m.spec.baselineIndex == index
            && 0 <= index - parent.spec.baselineIndex <= |held|
            && m.spec.baselineTerm == FrontierAt(c, parent.spec, held, index - parent.spec.baselineIndex).term
  {
    NewTimelineIsNew(random, parent.spec.timeline);
    FrontierIndex(c, parent.spec, held, known);
    if index > parent.spec.baselineIndex {
      HeldReads(c, parent.spec, files, held, index - parent.spec.baselineIndex - 1);
    }
  }

  /** No segment of the parent ever verifies in the branch. */
  lemma ParentNeverJoinsBranch(
      c: Codec, parent: Metadata, files: Files, f: Frontier, index: nat, backup: Backup, random: Bytes,
                               held: seq<Segment>, known: nat, i: nat, encoded: seq<Bytes>, j: nat)
    requires Lawful(c) && Backed(c, parent.spec, files, f, held, known) && |random| == TIMELINE_BYTES
    requires InitializeBranch(c, parent, files, f, index, backup, random).Ok?
    requires i < |held| && j < |encoded| && encoded[j] == c.encode(held[i])
    ensures Verification(c, InitializeBranch(c, parent, files, f, index, backup, random).value.spec, encoded).Err?
  {
    BranchIsRooted(c, parent, files, f, index, backup, random, held, known);
    ForeignSegmentNeverVerifies(c, parent.spec, held,
      InitializeBranch(c, parent, files, f, index, backup, random).value.spec, encoded, i, j);
  }

  // ---------------------------------------------------------------- retiring a replaced stream

  datatype Status = Status(metadata: Metadata, frontier: Frontier)

  /** A stream directory: whether its two subdirectories are there, the segment files, the names
      left in staging, and any other name among the segments or at the top. */
  datatype Stream = Stream(metadata: Metadata, complete: bool, files: Files, staging: set<Bytes>, strange: set<string>)

  /** The streams on disk, by directory name. */
  type Store = map<string, Stream>

  function ReplacementError(parent: Status, replacement: Status): Option<BranchError> {
    if replacement.metadata.parentTimeline != Some(parent.metadata.spec.timeline) then Some(WrongParent)
    else if replacement.metadata.branchIndex != Some(parent.frontier.index) ||
            replacement.metadata.spec.baselineIndex != parent.frontier.index then Some(BoundaryMismatch)
    else if replacement.metadata.spec.baselineTerm != parent.frontier.term then Some(TermMismatch)
    else if replacement.metadata.spec.timeline == parent.metadata.spec.timeline then Some(TimelineNotRotated)
    else None
  }

  /** The moved directory is still what the writer knew: nothing appended, nothing staged. */
  ghost predicate Unchanged(stream: Stream, expected: Status) {
    var b := expected.metadata.spec.baselineIndex;
    && stream.metadata == expected.metadata && stream.complete && stream.staging == {} && stream.strange == {}
    && |stream.files| == expected.frontier.segments && b + |stream.files| == expected.frontier.index
    && (stream.files != map[] ==> b + |stream.files| <= U64_MAX)
    && forall i :: i in stream.files ==> b < i <= b + |stream.files|
  }

  /** Checks the sorted indexes one by one. */
  method VerifyMovedStream(stream: Stream, expected: Status) returns (ok: bool)
    ensures ok <==> Unchanged(stream, expected)
  {
    if stream.metadata != expected.metadata || !stream.complete || stream.staging != {} || stream.strange != {} {
      return false;
    }
    var names := ListSegmentFiles(stream.files);
    if |names| != expected.frontier.segments {
      return false;
    }
    var b := expected.metadata.spec.baselineIndex;
    for k := 0 to |names|
      invariant forall i :: 0 <= i < k ==> names[i] == b + 1 + i
      invariant k > 0 ==> b + k <= U64_MAX
    {
      if b + k + 1 > U64_MAX {
        return false;
      }
      if names[k] != b + k + 1 {
        Misplaced(stream.files, names, b, k);
        return false;
      }
    }
    var last := if names == [] then b else names[|names| - 1];
    forall i | i in stream.files
      ensures b < i <= b + |stream.files|
    {
      assert Listed(stream.files, names, i);
      var k :| 0 <= k < |names| && names[k] == i;
    }
    ok := last == expected.frontier.index;
  }

  /** As many increasing names as indexes in the range leave no room for another. */
  lemma Misplaced(files: Files, names: seq<nat>, b: nat, k: nat)
    requires IsListing(files, names) && k < |names| && names[k] != b + k + 1
    requires forall i :: 0 <= i < k ==> names[i] == b + 1 + i
    ensures exists i :: i in files && !(b < i <= b + |files|)
  {
    assert Listed(files, names, names[k]) && Listed(files, names, names[|names| - 1]);
    assert k > 0 ==> names[k - 1] < names[k];
    if names[k] > b + k + 1 {
      AscendingGap(names, k, |names| - 1);
    }
  }

  lemma {:induction false} AscendingGap(names: seq<nat>, i: nat, j: nat)
    requires Ascending(names) && i <= j < |names|
    ensures names[j] >= names[i] + (j - i)
    decreases j
  {
    if i < j {
      AscendingGap(names, i, j - 1);
    }
  }

  /** Validate, move aside, look again, and only then delete. */
  ghost function Retire(store: Store, root: string, aside: string, parent: Status, replacement: Status)
    : (Store, Result<(), BranchError>)
  {
    if ReplacementError(parent, replacement).Some? then (store, Err(ReplacementError(parent, replacement).value))
    else if aside in store then (store, Err(RetiredPathExists))
    else if root !in store then (store, Err(SourceMissing))
    else if !Unchanged(store[root], parent) then ((store - {root})[aside := store[root]], Err(MovedStreamChanged))
    else (store - {root}, Ok(()))
  }

  /** Some stream on disk can recover to exactly this index. */
  ghost predicate Recoverable(c: Codec, store: Store, t: nat) {
    exists root, segments :: RecoverableFrom(c, store, root, segments, t)
  }

  ghost predicate RecoverableFrom(c: Codec, store: Store, root: string, segments: seq<Segment>, t: nat) {
    && root in store && Holds(c, store[root].metadata.spec, store[root].files, segments)
    && store[root].metadata.spec.baselineIndex <= t <= store[root].metadata.spec.baselineIndex + |segments|
  }

  /** Retirement never loses the newest recoverable index: whatever could be recovered, that or
      something newer still can, even if the old stream grew behind its writer's back. */
  lemma RetirementKeepsNewest(
      c: Codec, store: Store, root: string, aside: string, parent: Status, replacement: Status, child: string,
                              segments: seq<Segment>, t: nat)
    requires child in store && child != root && store[child].metadata == replacement.metadata
    requires Holds(c, store[child].metadata.spec, store[child].files, segments)
    requires Recoverable(c, store, t)
    ensures exists t' :: t <= t' && Recoverable(c, Retire(store, root, aside, parent, replacement).0, t')
  {
    var store' := Retire(store, root, aside, parent, replacement).0;
    var from, chain :| RecoverableFrom(c, store, from, chain, t);
    if from != root || root in store' {
      assert RecoverableFrom(c, store', from, chain, t);
    } else if aside in store' && store'[aside] == store[root] {
      assert RecoverableFrom(c, store', aside, chain, t);
      assert Recoverable(c, store', t);
    } else {
      HeldCount(c, store[root].metadata.spec, store[root].files, chain);
      var newest := replacement.metadata.spec.baselineIndex;
      assert RecoverableFrom(c, store', child, segments, newest);
      assert t <= newest && Recoverable(c, store', newest);
    }
  }

  /** A stream is deleted only unchanged, validated and replaced at its own frontier. */
  lemma DeletedOnlyWhenReplaced(store: Store, root: string, aside: string, parent: Status, replacement: Status)
    requires root in store && root !in Retire(store, root, aside, parent, replacement).0
             && aside !in Retire(store, root, aside, parent, replacement).0
    ensures Unchanged(store[root], parent) && replacement.metadata.spec.baselineIndex == parent.frontier.index
    ensures replacement.metadata.parentTimeline ==
            Some(parent.metadata.spec.timeline) != Some(replacement.metadata.spec.timeline)
    ensures replacement.metadata.spec.baselineTerm == parent.frontier.term
  {
  }
}
