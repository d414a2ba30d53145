/** The synchronous archive fence: an entry is durably applied, then archived, then confirmed,
    with crashes and restarts anywhere in between. */
module PitrRuntime {
  import opened Base
  import opened PitrSegment
  import opened PitrChain
  import opened PitrArchive
  import RaftStore

  const HARD_MAX_SEGMENTS: nat := 1_000_000

  datatype RuntimeError =
    | InvalidLimit | CannotOpen | SegmentLimit | BaselineAhead | FrontierAhead | CompactionAhead
    | Publication(error: ArchiveError)

  // ---------------------------------------------------------------- archiving one entry

  datatype Fenced = Fenced(files: Files, frontier: Frontier, result: Result<(), RuntimeError>)

  function ArchiveApplied(
      c: Codec, spec: Spec, files: Files, f: Frontier, maxSegments: nat, entry: RaftStore.LogEntry, now: nat): Fenced
  {
    if entry.index <= spec.baselineIndex then Fenced(files, f, Ok(()))
    else if entry.index > f.index && f.segments >= maxSegments then Fenced(files, f, Err(SegmentLimit))
    else
      var a := Append(c, spec, files, f, entry, now);
      match a.result
      case Ok(_) => Fenced(a.files, a.frontier, Ok(()))
      case Err(e) => Fenced(a.files, a.frontier, Err(Publication(e)))
  }

  /** What startup accepts. */
  function StartupError(
      spec: Spec, found: Option<Frontier>, maxSegments: nat, applied: nat, snapshotIndex: Option<nat>)
    : Option<RuntimeError>
  {
    if maxSegments == 0 || maxSegments > HARD_MAX_SEGMENTS then Some(InvalidLimit)
    else if found.None? then Some(CannotOpen)
    else if found.value.segments > maxSegments then Some(SegmentLimit)
    else if spec.baselineIndex > applied then Some(BaselineAhead)
    else if found.value.index > applied then Some(FrontierAhead)
    else if snapshotIndex.Some? && snapshotIndex.value > found.value.index then Some(CompactionAhead)
    else None
  }

  /** Owns one writer. */
  class PitrRuntimeArchiver {
    const writer: PitrArchiveWriter
    const maxSegments: nat

    constructor (writer: PitrArchiveWriter, maxSegments: nat)
      ensures this.writer == writer && this.maxSegments == maxSegments
    {
      this.writer := writer;
      this.maxSegments := maxSegments;
    }

    method Archive(c: Codec, entry: RaftStore.LogEntry, now: nat) returns (r: Result<(), RuntimeError>)
      modifies writer`frontier, writer.dir
      ensures Fenced(writer.dir.files, writer.frontier, r) ==
                ArchiveApplied(c, writer.dir.spec, old(writer.dir.files), old(writer.frontier), maxSegments, entry, now)
    {
      if entry.index <= writer.dir.spec.baselineIndex {
        return Ok(());
      }
      if entry.index > writer.frontier.index && writer.frontier.segments >= maxSegments {
        return Err(SegmentLimit);
      }
      var appended := writer.AppendCommitted(c, entry, now);
      if appended.Err? {
        return Err(Publication(appended.error));
      }
      r := Ok(());
    }
  }

  // ---------------------------------------------------------------- a node

  datatype Stage = Idle | Applied | Published | Failed

  /** What a running node holds in memory; `lastApplied` is Raft's confirmed frontier. */
  datatype Volatile = Volatile(frontier: Frontier, maxSegments: nat, lastApplied: nat, stage: Stage)

  /** The committed log, what is durable, what is in memory, and which indexes were ever confirmed. */
  datatype Node = Node(
    log: seq<RaftStore.LogEntry>, // entry `i` is log[i - 1]
    applied: nat,
    files: Files,
    volatile: Option<Volatile>,
    confirmed: set<nat>)

  datatype Step =
    | Commit(entry: RaftStore.LogEntry)
    | Start(maxSegments: nat, snapshotIndex: Option<nat>)
    | Apply(ok: bool)
    | Publish(now: nat)
    | Confirm
    | Crash

  ghost function Next(c: Codec, spec: Spec, n: Node, step: Step): Node {
    match step
    case Commit(entry) => if entry.index == |n.log| + 1 then n.(log := n.log + [entry]) else n
    case Start(max, snapshot) =>
      var found := Opened(c, spec, n.files);
      if n.volatile.Some? || StartupError(spec, found, max, n.applied, snapshot).Some? then n
      else n.(volatile := Some(Volatile(found.value, max, n.applied, Idle)))
    case Crash => n.(volatile := None)
    case _ => if n.volatile.None? then n else Running(c, spec, n, n.volatile.value, step)
  }

  ghost function Running(c: Codec, spec: Spec, n: Node, v: Volatile, step: Step): Node {
    match step
    case Apply(ok) =>
      if v.stage != Idle || v.lastApplied >= |n.log| then n
      else if !ok then n.(volatile := Some(v.(stage := Failed)))
      else n.(applied := if n.applied < v.lastApplied + 1 then v.lastApplied + 1 else n.applied,
              volatile := Some(v.(stage := Applied)))
    case Publish(now) =>
      if v.stage != Applied || v.lastApplied >= |n.log| then n
      else
        var r := ArchiveApplied(c, spec, n.files, v.frontier, v.maxSegments, n.log[v.lastApplied], now);
        n.(files := r.files,
           volatile := Some(v.(frontier := r.frontier, stage := if r.result.Ok? then Published else Failed)))
    case Confirm =>
      if v.stage != Published then n
      else n.(confirmed := n.confirmed + {v.lastApplied + 1},
              volatile := Some(v.(lastApplied := v.lastApplied + 1, stage := Idle)))
    case _ => n
  }

  ghost function Run(c: Codec, spec: Spec, n: Node, steps: seq<Step>): Node
    decreases |steps|
  {
    if steps == [] then n else Run(c, spec, Next(c, spec, n, steps[0]), steps[1..])
  }

  // ---------------------------------------------------------------- what every run keeps

  ghost predicate InArchive(spec: Spec, segments: seq<Segment>, i: nat) {
    i <= spec.baselineIndex || i <= spec.baselineIndex + |segments|
  }

  /** The archive is the log from the baseline on, as far as it goes. */
  ghost predicate MatchesLog(spec: Spec, log: seq<RaftStore.LogEntry>, segments: seq<Segment>) {
    && (segments != [] ==> spec.baselineIndex + |segments| <= |log|)
    && (forall k :: 0 <= k < |segments| ==> ToLogEntry(segments[k].record) == log[spec.baselineIndex + k])
  }

  ghost predicate Numbered(log: seq<RaftStore.LogEntry>) {
    forall i :: 0 <= i < |log| ==> log[i].index == i + 1
  }

  ghost predicate Fence(c: Codec, spec: Spec, n: Node, segments: seq<Segment>) {
    && Holds(c, spec, n.files, segments) && MatchesLog(spec, n.log, segments)
    && (segments != [] ==> spec.baselineIndex + |segments| <= n.applied) && n.applied <= |n.log|
    && |segments| <= HARD_MAX_SEGMENTS
    && Numbered(n.log)
    && (forall i :: i in n.confirmed ==> 0 < i <= n.applied && InArchive(spec, segments, i))
    && (n.volatile.Some? ==> InMemory(c, spec, n, n.volatile.value, segments))
  }

  ghost predicate InMemory(c: Codec, spec: Spec, n: Node, v: Volatile, segments: seq<Segment>) {
    && v.frontier == FrontierAt(c, spec, segments, |segments|) && |segments| <= v.maxSegments <= HARD_MAX_SEGMENTS
    && spec.baselineIndex <= n.applied && v.lastApplied <= n.applied
    && (v.stage.Applied? || v.stage.Published? ==> v.lastApplied < n.applied)
    && (v.stage.Published? ==> InArchive(spec, segments, v.lastApplied + 1))
  }

  lemma LogGrows(c: Codec, spec: Spec, n: Node, segments: seq<Segment>, entry: RaftStore.LogEntry)
    requires Fence(c, spec, n, segments)
    ensures Fence(c, spec, Next(c, spec, n, Commit(entry)), segments)
  {
    var n' := Next(c, spec, n, Commit(entry));
    if entry.index == |n.log| + 1 {
      forall k | 0 <= k < |segments|
        ensures ToLogEntry(segments[k].record) == n'.log[spec.baselineIndex + k]
      {
        assert n'.log[spec.baselineIndex + k] == n.log[spec.baselineIndex + k];
      }
    }
  }

  lemma StartKeepsFence(c: Codec, spec: Spec, n: Node, segments: seq<Segment>, max: nat, snapshot: Option<nat>)
    requires Lawful(c) && Fence(c, spec, n, segments)
    ensures Fence(c, spec, Next(c, spec, n, Start(max, snapshot)), segments)
  {
    if Verifiable(c, spec, n.files) {
      OneChain(c, spec, n.files, ChainOf(c, spec, n.files), segments);
      FrontierIndex(c, spec, segments, |segments|);
    }
  }

  /** What archiving the next entry does to the chain: nothing, or one more segment for it. */
  lemma PublishGrows(
      c: Codec, spec: Spec, files: Files, segments: seq<Segment>, max: nat, entry: RaftStore.LogEntry, now: nat)
    returns (grown: seq<Segment>)
    requires Lawful(c) && Holds(c, spec, files, segments)
    ensures var f := FrontierAt(c, spec, segments, |segments|);
            var r := ArchiveApplied(c, spec, files, f, max, entry, now);
            && Holds(c, spec, r.files, grown) && r.frontier == FrontierAt(c, spec, grown, |grown|)
            && (grown == segments ||
                  (|segments| < max && entry.index == spec.baselineIndex + |segments| + 1 &&
                    |grown| == |segments| + 1 &&
                   segments <= grown && ToLogEntry(grown[|segments|].record) == entry))
            && (r.result.Ok? && entry.index > spec.baselineIndex ==> entry.index <= spec.baselineIndex + |grown|)
  {
    var f := FrontierAt(c, spec, segments, |segments|);
    FrontierIndex(c, spec, segments, |segments|);
    var r := ArchiveApplied(c, spec, files, f, max, entry, now);
    grown := segments;
    assert KeepsEntry(c, entry);
    if r.frontier != f {
      var s := NewSegment(spec.timeline, now, f.hash, c.record(entry).value);
      CreatedNext(c, spec, files, segments, |segments|, s);
      grown := segments + [s];
    }
  }

  lemma PublishKeepsFence(c: Codec, spec: Spec, n: Node, segments: seq<Segment>, now: nat) returns (grown: seq<Segment>)
    requires Lawful(c) && Fence(c, spec, n, segments)
    ensures segments <= grown && Fence(c, spec, Next(c, spec, n, Publish(now)), grown)
  {
    grown := segments;
    if n.volatile.Some? && n.volatile.value.stage.Applied? && n.volatile.value.lastApplied < |n.log| {
      var v := n.volatile.value;
      grown := PublishGrows(c, spec, n.files, segments, v.maxSegments, n.log[v.lastApplied], now);
      GrownMatches(spec, n.log, segments, grown, v.lastApplied);
    }
  }

  lemma GrownMatches(spec: Spec, log: seq<RaftStore.LogEntry>, segments: seq<Segment>, grown: seq<Segment>, at: nat)
    requires Numbered(log) && MatchesLog(spec, log, segments) && at < |log| && segments <= grown
    requires grown == segments || (log[at].index == spec.baselineIndex + |segments| + 1 && |grown| == |segments| + 1 &&
                                   ToLogEntry(grown[|segments|].record) == log[at])
    ensures MatchesLog(spec, log, grown)
  {
  }

  lemma StepKeepsFence(c: Codec, spec: Spec, n: Node, segments: seq<Segment>, step: Step) returns (grown: seq<Segment>)
    requires Lawful(c) && Fence(c, spec, n, segments)
    ensures segments <= grown && Fence(c, spec, Next(c, spec, n, step), grown)
  {
    grown := segments;
    match step {
      case Commit(entry) => LogGrows(c, spec, n, segments, entry);
      case Start(max, snapshot) => StartKeepsFence(c, spec, n, segments, max, snapshot);
      case Publish(now) => grown := PublishKeepsFence(c, spec, n, segments, now);
      case _ =>
    }
  }

  lemma {:induction false} RunKeepsFence(c: Codec, spec: Spec, n: Node, segments: seq<Segment>, steps: seq<Step>)
    returns (grown: seq<Segment>)
    requires Lawful(c) && Fence(c, spec, n, segments)
    ensures segments <= grown && Fence(c, spec, Run(c, spec, n, steps), grown)
    decreases |steps|
  {
    if steps == [] {
      grown := segments;
    } else {
      var next := StepKeepsFence(c, spec, n, segments, steps[0]);
      grown := RunKeepsFence(c, spec, Next(c, spec, n, steps[0]), next, steps[1..]);
    }
  }

  function Fresh(applied: nat, log: seq<RaftStore.LogEntry>): Node {
    Node(log, applied, map[], None, {})
  }

  /** Over every run of a node with a fresh stream: every confirmed entry above the baseline is
      in the archive under its index, the archive never runs ahead of durable apply, and the
      number of segments never passes the limit. */
  lemma ConfirmedIsArchived(c: Codec, spec: Spec, log: seq<RaftStore.LogEntry>, applied: nat, steps: seq<Step>)
    requires Lawful(c) && applied <= |log| && Numbered(log)
    ensures var n := Run(c, spec, Fresh(applied, log), steps);
            && (forall i :: i in n.confirmed && i > spec.baselineIndex ==>
               0 < i <= |n.log| && Archived(c, n.files, n.log[i - 1]))
            && (forall i :: i in n.files ==> i <= n.applied)
            && (n.volatile.Some? ==> |n.files| <= n.volatile.value.maxSegments)
  {
    var n := Run(c, spec, Fresh(applied, log), steps);
    var segments := RunKeepsFence(c, spec, Fresh(applied, log), [], steps);
    forall i | i in n.confirmed && i > spec.baselineIndex
      ensures 0 < i <= |n.log| && Archived(c, n.files, n.log[i - 1])
    {
      FenceArchives(c, spec, n, segments, i);
    }
    HeldCount(c, spec, n.files, segments);
  }

  lemma FenceArchives(c: Codec, spec: Spec, n: Node, segments: seq<Segment>, i: nat)
    requires Lawful(c) && Fence(c, spec, n, segments) && i in n.confirmed && i > spec.baselineIndex
    ensures 0 < i <= |n.log| && Archived(c, n.files, n.log[i - 1])
  {
    var k := i - spec.baselineIndex - 1;
    assert FileIs(c, spec, n.files, segments, k) && LinkedAt(c, spec, segments, k) && ReadsBack(c, segments[k]);
  }

  // ---------------------------------------------------------------- after an unlucky crash

  /** An entry above the archive was applied and will not be offered again. */
  ghost predicate Behind(spec: Spec, n: Node, segments: seq<Segment>) {
    && spec.baselineIndex + |segments| < n.applied
    && (n.volatile.Some? ==>
       n.volatile.value.lastApplied > spec.baselineIndex + |segments| && !n.volatile.value.stage.Published?)
  }

  /** A crash between apply and publication leaves the archive behind. */
  lemma CrashLeavesBehind(c: Codec, spec: Spec, n: Node, segments: seq<Segment>)
    requires Fence(c, spec, n, segments) && n.volatile.Some? && n.volatile.value.stage.Applied?
    requires !InArchive(spec, segments, n.volatile.value.lastApplied + 1)
    ensures Behind(spec, Next(c, spec, n, Step.Crash), segments)
  {
  }

  lemma BehindRejects(
      c: Codec, spec: Spec, files: Files, segments: seq<Segment>, max: nat, entry: RaftStore.LogEntry, now: nat)
    requires Holds(c, spec, files, segments) && entry.index > spec.baselineIndex + |segments| + 1 &&
             KeepsEntry(c, entry)
    ensures var f := FrontierAt(c, spec, segments, |segments|);
            var r := ArchiveApplied(c, spec, files, f, max, entry, now);
            r.files == files && r.frontier == f && r.result.Err?
  {
    FrontierIndex(c, spec, segments, |segments|);
  }

  lemma BehindStays(c: Codec, spec: Spec, n: Node, segments: seq<Segment>, step: Step)
    requires Lawful(c) && Fence(c, spec, n, segments) && Behind(spec, n, segments)
    ensures var n' := Next(c, spec, n, step);
            Fence(c, spec, n', segments) && Behind(spec, n', segments) && n'.confirmed == n.confirmed &&
              n'.files == n.files
  {
    match step {
      case Commit(entry) => LogGrows(c, spec, n, segments, entry);
      case Start(max, snapshot) => StartKeepsFence(c, spec, n, segments, max, snapshot);
      case Publish(now) => PublishStaysBehind(c, spec, n, segments, now);
      case _ =>
    }
  }

  lemma PublishStaysBehind(c: Codec, spec: Spec, n: Node, segments: seq<Segment>, now: nat)
    requires Lawful(c) && Fence(c, spec, n, segments) && Behind(spec, n, segments)
    ensures var n' := Next(c, spec, n, Publish(now));
            Fence(c, spec, n', segments) && Behind(spec, n', segments) && n'.confirmed == n.confirmed &&
              n'.files == n.files
  {
    if n.volatile.Some? && n.volatile.value.lastApplied < |n.log| {
      var v := n.volatile.value;
      assert KeepsEntry(c, n.log[v.lastApplied]);
      BehindRejects(c, spec, n.files, segments, v.maxSegments, n.log[v.lastApplied], now);
    }
  }

  /** From then on nothing is archived or confirmed again, however often the node restarts. */
  lemma {:induction false} BehindForever(c: Codec, spec: Spec, n: Node, segments: seq<Segment>, steps: seq<Step>)
    requires Lawful(c) && Fence(c, spec, n, segments) && Behind(spec, n, segments)
    ensures Run(c, spec, n, steps).confirmed == n.confirmed && Run(c, spec, n, steps).files == n.files
    decreases |steps|
  {
    if steps != [] {
      BehindStays(c, spec, n, segments, steps[0]);
      BehindForever(c, spec, Next(c, spec, n, steps[0]), segments, steps[1..]);
    }
  }

  /** The next entry is archived after a restart exactly when the archive had caught up with apply. */
  lemma RestartArchivesIff(
      c: Codec, spec: Spec, n: Node, segments: seq<Segment>, max: nat, snapshot: Option<nat>, now: nat)
    requires Lawful(c) && Fence(c, spec, n, segments) &&
             StartupError(spec, Opened(c, spec, n.files), max, n.applied, snapshot).None?
    requires n.applied < |n.log| && c.record(n.log[n.applied]).Ok? && |segments| < max
    requires NewSegmentSized(n.log[n.applied], spec.timeline, now, c.hash(HashInput(c, spec, segments, |segments|)))
    ensures var f := Opened(c, spec, n.files).value;
            ArchiveApplied(c, spec, n.files, f, max, n.log[n.applied], now).result.Ok? <==>
              spec.baselineIndex + |segments| == n.applied
  {
    var entry := n.log[n.applied];
    var f := FrontierAt(c, spec, segments, |segments|);
    OneChain(c, spec, n.files, ChainOf(c, spec, n.files), segments);
    FrontierIndex(c, spec, segments, |segments|);
    assert KeepsEntry(c, entry);
    assert Accepts(c, entry, spec.timeline, now, f.hash);
    HeldCount(c, spec, n.files, segments);
  }
}
