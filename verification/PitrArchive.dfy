/** The archive directory and its writers: any number of writers append to one directory of
    segment files, each with its own in-memory frontier. */
module PitrArchive {
  import opened Base
  import opened PitrSegment
  import opened PitrChain
  import RaftStore

  const MAX_SEGMENT_FILES: nat := 1_000_000

  /** The segment files of a stream, each under its index. */
  type Files = map<nat, Bytes>

  datatype ArchiveError =
    | Malformed(error: CodecError) | InvalidSegment | ConflictingDuplicate | GapInEntries | TargetUnavailable
    | FileMissing | Overflow
    | TooManySegments | UnexpectedIndex | ForeignTimeline | FilenameMismatch | BrokenLink

  // ---------------------------------------------------------------- the directory

  /** The directory is exactly these segments, without gaps, from the baseline on. */
  ghost predicate Holds(c: Codec, spec: Spec, files: Files, segments: seq<Segment>) {
    && IsChain(c, spec, segments)
    && (forall i :: i in files ==> spec.baselineIndex < i <= spec.baselineIndex + |segments|)
    && (forall k :: 0 <= k < |segments| ==> FileIs(c, spec, files, segments, k))
  }

  predicate FileIs(c: Codec, spec: Spec, files: Files, segments: seq<Segment>, k: nat)
    requires k < |segments|
  {
    spec.baselineIndex + 1 + k in files && files[spec.baselineIndex + 1 + k] == c.encode(segments[k])
  }

  lemma HeldCount(c: Codec, spec: Spec, files: Files, segments: seq<Segment>)
    requires Holds(c, spec, files, segments)
    ensures |files| == |segments|
  {
    var range := Range(spec.baselineIndex, |segments|);
    forall i | i in range
      ensures i in files
    {
      assert FileIs(c, spec, files, segments, i - spec.baselineIndex - 1);
    }
    assert files.Keys == range;
  }

  ghost function Range(b: nat, n: nat): (r: set<nat>)
    ensures |r| == n && forall i :: i in r <==> b < i <= b + n
  {
    if n == 0 then {} else Range(b, n - 1) + {b + n}
  }

  // ---------------------------------------------------------------- appending

  predicate SameLogicalSegment(a: Segment, b: Segment) {
    a.timeline == b.timeline && a.compat == b.compat && a.previousHash == b.previousHash && a.record == b.record
  }

  function ReadSegment(c: Codec, spec: Spec, files: Files, f: Frontier, index: nat): Result<Segment, ArchiveError> {
    if !(spec.baselineIndex < index <= f.index) then Err(TargetUnavailable)
    else if index !in files then Err(FileMissing)
    else
      match c.decode(files[index])
      case Ok(s) => Ok(s)
      case Err(e) => Err(Malformed(e))
  }

  /** Create the file unless it is there; a file that is there must say the same. */
  function Publish(c: Codec, files: Files, s: Segment): Result<(Files, Hash), ArchiveError> {
    if s.record.index !in files then Ok((files[s.record.index := c.encode(s)], c.hash(c.encode(s))))
    else
      match c.decode(files[s.record.index])
      case Err(e) => Err(Malformed(e))
      case Ok(existing) =>
        if SameLogicalSegment(existing, s) then Ok((files, c.hash(c.encode(existing)))) else Err(ConflictingDuplicate)
  }

  datatype Appended = Appended(files: Files, frontier: Frontier, result: Result<nat, ArchiveError>)

  function Append(c: Codec, spec: Spec, files: Files, f: Frontier, entry: RaftStore.LogEntry, now: nat): Appended {
    match c.record(entry)
    case Err(e) => Appended(files, f, Err(Malformed(e)))
    case Ok(r) =>
      if f.index >= U64_MAX then Appended(files, f, Err(Overflow))
      else if r.index < f.index + 1 then Appended(files, f, Duplicate(c, spec, files, f, r))
      else if r.index > f.index + 1 then Appended(files, f, Err(GapInEntries))
      else AppendNew(c, files, f, NewSegment(spec.timeline, now, f.hash, r))
  }

  function Duplicate(c: Codec, spec: Spec, files: Files, f: Frontier, r: Record): Result<nat, ArchiveError> {
    match ReadSegment(c, spec, files, f, r.index)
    case Err(e) => Err(e)
    case Ok(existing) =>
      if existing.record == r && existing.timeline == spec.timeline then Ok(r.index) else Err(ConflictingDuplicate)
  }

  function AppendNew(c: Codec, files: Files, f: Frontier, s: Segment): Appended {
    if !c.valid(s) then Appended(files, f, Err(InvalidSegment))
    else
      match Publish(c, files, s)
      case Err(e) => Appended(files, f, Err(e))
      case Ok((files', hash)) =>
        Appended(files', Frontier(s.record.index, s.record.term, hash, f.segments + 1), Ok(s.record.index))
  }

  // ---------------------------------------------------------------- what an append keeps

  /** A writer's frontier is the one recomputed over some prefix of the chain. */
  ghost predicate OnChain(c: Codec, spec: Spec, segments: seq<Segment>, f: Frontier) {
    exists k :: 0 <= k <= |segments| && f == FrontierAt(c, spec, segments, k)
  }

  lemma FrontierIndex(c: Codec, spec: Spec, segments: seq<Segment>, k: nat)
    requires IsChain(c, spec, segments) && k <= |segments|
    ensures var f := FrontierAt(c, spec, segments, k);
            f.index == spec.baselineIndex + k && f.segments == k && f.hash == c.hash(HashInput(c, spec, segments, k))
  {
    if k > 0 {
      assert LinkedAt(c, spec, segments, k - 1);
    }
  }

  lemma FrontierKept(c: Codec, spec: Spec, segments: seq<Segment>, s: Segment, f: Frontier)
    requires OnChain(c, spec, segments, f)
    ensures OnChain(c, spec, segments + [s], f)
  {
    var k :| 0 <= k <= |segments| && f == FrontierAt(c, spec, segments, k);
    assert f == FrontierAt(c, spec, segments + [s], k);
  }

  /** The segments after publishing `s` on a held directory. */
  function Grown(spec: Spec, segments: seq<Segment>, files: Files, s: Segment): seq<Segment> {
    if s.record.index in files then segments else segments + [s]
  }

  /** A writer whose frontier is on the chain either creates the next file or finds the one
      another writer created; both leave the directory held and its frontier on the chain. */
  lemma PublishKeeps(c: Codec, spec: Spec, files: Files, segments: seq<Segment>, f: Frontier, s: Segment)
    requires Lawful(c) && Holds(c, spec, files, segments) && OnChain(c, spec, segments, f)
    requires c.valid(s) && LinkError(spec.timeline, f, s).None? && Publish(c, files, s).Ok?
    ensures var (files', hash) := Publish(c, files, s).value;
            var grown := Grown(spec, segments, files, s);
            && Holds(c, spec, files', grown)
            && OnChain(c, spec, grown, Frontier(s.record.index, s.record.term, hash, f.segments + 1))
  {
    var k :| 0 <= k <= |segments| && f == FrontierAt(c, spec, segments, k);
    FrontierIndex(c, spec, segments, k);
    if s.record.index in files {
      FoundAgain(c, spec, files, segments, k, s);
    } else {
      CreatedNext(c, spec, files, segments, k, s);
    }
  }

  lemma FoundAgain(c: Codec, spec: Spec, files: Files, segments: seq<Segment>, k: nat, s: Segment)
    requires Lawful(c) && Holds(c, spec, files, segments) && k <= |segments|
    requires s.record.index == spec.baselineIndex + k + 1 && s.record.index in files && Publish(c, files, s).Ok?
    ensures k < |segments| && Publish(c, files, s).value.0 == files
    ensures Frontier(s.record.index, s.record.term, Publish(c, files, s).value.1, k + 1) ==
            FrontierAt(c, spec, segments, k + 1)
  {
    assert FileIs(c, spec, files, segments, k) && LinkedAt(c, spec, segments, k) && ReadsBack(c, segments[k]);
  }

  lemma CreatedNext(c: Codec, spec: Spec, files: Files, segments: seq<Segment>, k: nat, s: Segment)
    requires Lawful(c) && Holds(c, spec, files, segments) && k <= |segments| && c.valid(s)
    requires LinkError(spec.timeline, FrontierAt(c, spec, segments, k), s).None? && s.record.index !in files
    ensures k == |segments| && Holds(c, spec, files[s.record.index := c.encode(s)], segments + [s])
    ensures FrontierAt(c, spec, segments + [s], k + 1) ==
            Frontier(s.record.index, s.record.term, c.hash(c.encode(s)), k + 1)
  {
    FrontierIndex(c, spec, segments, k);
    assert k < |segments| ==> FileIs(c, spec, files, segments, k);
    ChainGrows(c, spec, segments, s);
    var files', grown := files[s.record.index := c.encode(s)], segments + [s];
    forall j | 0 <= j < |grown|
      ensures FileIs(c, spec, files', grown, j)
    {
      if j < |segments| {
        assert FileIs(c, spec, files, segments, j);
      }
    }
  }

  /** After any append the directory is held by an extension of the chain, and the writer's
      frontier is on it. */
  lemma AppendKeeps(
      c: Codec, spec: Spec, files: Files, segments: seq<Segment>, f: Frontier, entry: RaftStore.LogEntry, now: nat)
    returns (grown: seq<Segment>)
    requires Lawful(c) && Holds(c, spec, files, segments) && OnChain(c, spec, segments, f)
    ensures var a := Append(c, spec, files, f, entry, now);
            segments <= grown && Holds(c, spec, a.files, grown) && OnChain(c, spec, grown, a.frontier)
    ensures forall g :: OnChain(c, spec, segments, g) ==> OnChain(c, spec, grown, g)
  {
    var a := Append(c, spec, files, f, entry, now);
    grown := segments;
    if a.frontier != f {
      var s := NewSegment(spec.timeline, now, f.hash, c.record(entry).value);
      PublishKeeps(c, spec, files, segments, f, s);
      grown := Grown(spec, segments, files, s);
      forall g | OnChain(c, spec, segments, g)
        ensures OnChain(c, spec, grown, g)
      {
        FrontierKept(c, spec, segments, s, g);
      }
    }
  }

  ghost predicate Archived(c: Codec, files: Files, entry: RaftStore.LogEntry) {
    entry.index in files && c.decode(files[entry.index]).Ok? &&
      ToLogEntry(c.decode(files[entry.index]).value.record) == entry
  }

  /** An append that succeeds leaves exactly this entry archived under its index; one that finds
      another entry there fails and changes nothing. */
  lemma AppendArchives(c: Codec, spec: Spec, files: Files, f: Frontier, entry: RaftStore.LogEntry, now: nat)
    requires Lawful(c)
    ensures var a := Append(c, spec, files, f, entry, now);
            && (a.result.Ok? ==> Archived(c, a.files, entry) && a.result.value == entry.index)
            && (a.result.Err? ==> a.files == files && a.frontier == f)
            && (entry.index in files && !Archived(c, files, entry) ==> a.result.Err?)
  {
    assert KeepsEntry(c, entry);
    if c.record(entry).Ok? {
      assert ReadsBack(c, NewSegment(spec.timeline, now, f.hash, c.record(entry).value));
    }
  }

  // ---------------------------------------------------------------- opening

  ghost predicate Verifiable(c: Codec, spec: Spec, files: Files) {
    && SpecError(spec).None? && |files| <= MAX_SEGMENT_FILES && spec.baselineIndex + |files| < U64_MAX
    && exists segments :: Holds(c, spec, files, segments)
  }

  /** A directory holds at most one chain, as long as the directory has files. */
  lemma OneChain(c: Codec, spec: Spec, files: Files, a: seq<Segment>, b: seq<Segment>)
    requires Lawful(c) && Holds(c, spec, files, a) && Holds(c, spec, files, b)
    ensures a == b
  {
    assert a != [] ==> FileIs(c, spec, files, a, |a| - 1);
    assert b != [] ==> FileIs(c, spec, files, b, |b| - 1);
    assert |a| == |b|;
    forall k | 0 <= k < |a|
      ensures a[k] == b[k]
    {
      assert FileIs(c, spec, files, a, k) && FileIs(c, spec, files, b, k);
      assert LinkedAt(c, spec, a, k) && LinkedAt(c, spec, b, k);
      assert ReadsBack(c, a[k]) && ReadsBack(c, b[k]);
    }
  }

  ghost function ChainOf(c: Codec, spec: Spec, files: Files): seq<Segment>
    requires exists segments :: Holds(c, spec, files, segments)
  {
    var segments :| Holds(c, spec, files, segments);
    segments
  }

  ghost function Opened(c: Codec, spec: Spec, files: Files): Option<Frontier> {
    if Verifiable(c, spec, files) then
      Some(FrontierAt(c, spec, ChainOf(c, spec, files), |ChainOf(c, spec, files)|))
    else None
  }

  // ---------------------------------------------------------------- runs of several writers

  datatype Archive = Archive(spec: Spec, files: Files, writers: map<nat, Frontier>)

  datatype Step =
    | Open(writer: nat)
    | AppendCommitted(writer: nat, entry: RaftStore.LogEntry, now: nat)
    | Crash(writer: nat)

  ghost function Next(c: Codec, a: Archive, step: Step): Archive {
    match step
    case Open(w) =>
      if Opened(c, a.spec, a.files).Some? then a.(writers := a.writers[w := Opened(c, a.spec, a.files).value]) else a
    case AppendCommitted(w, entry, now) =>
      if w !in a.writers then a
      else
        var r := Append(c, a.spec, a.files, a.writers[w], entry, now);
        a.(files := r.files, writers := a.writers[w := r.frontier])
    case Crash(w) => a.(writers := a.writers - {w})
  }

  ghost function Run(c: Codec, a: Archive, steps: seq<Step>): Archive
    decreases |steps|
  {
    if steps == [] then a else Run(c, Next(c, a, steps[0]), steps[1..])
  }

  /** The directory holds the chain, and every writer's frontier is the one recomputed over a
      prefix of it. */
  ghost predicate Consistent(c: Codec, a: Archive, segments: seq<Segment>) {
    Holds(c, a.spec, a.files, segments) && forall w :: w in a.writers ==> OnChain(c, a.spec, segments, a.writers[w])
  }

  lemma StepKeepsConsistent(c: Codec, a: Archive, segments: seq<Segment>, step: Step) returns (grown: seq<Segment>)
    requires Lawful(c) && Consistent(c, a, segments)
    ensures segments <= grown && Consistent(c, Next(c, a, step), grown) && Next(c, a, step).spec == a.spec
  {
    grown := segments;
    match step {
      case Open(w) =>
        if Verifiable(c, a.spec, a.files) {
          var chain := ChainOf(c, a.spec, a.files);
          OneChain(c, a.spec, a.files, chain, segments);
          assert OnChain(c, a.spec, segments, FrontierAt(c, a.spec, segments, |segments|));
        }
      case AppendCommitted(w, entry, now) =>
        if w in a.writers {
          grown := AppendKeeps(c, a.spec, a.files, segments, a.writers[w], entry, now);
        }
      case Crash(w) =>
    }
  }

  /** Along every run, however writers interleave, conflict, crash and reopen: the directory
      stays one gap-free chain that only grows, and every frontier stays on it. */
  lemma {:induction false} EveryRunIsConsistent(c: Codec, a: Archive, segments: seq<Segment>, steps: seq<Step>)
    returns (grown: seq<Segment>)
    requires Lawful(c) && Consistent(c, a, segments)
    ensures segments <= grown && Consistent(c, Run(c, a, steps), grown) && Run(c, a, steps).spec == a.spec
    decreases |steps|
  {
    if steps == [] {
      grown := segments;
    } else {
      var next := StepKeepsConsistent(c, a, segments, steps[0]);
      grown := EveryRunIsConsistent(c, Next(c, a, steps[0]), next, steps[1..]);
    }
  }

  lemma FilesStay(
      c: Codec, spec: Spec, files: Files, segments: seq<Segment>, files': Files, grown: seq<Segment>, i: nat)
    requires Holds(c, spec, files, segments) && Holds(c, spec, files', grown) && segments <= grown && i in files
    ensures i in files' && files'[i] == files[i]
  {
    var k := i - spec.baselineIndex - 1;
    assert FileIs(c, spec, files, segments, k) && FileIs(c, spec, files', grown, k);
  }

  /** Published segments never change and never go away. */
  lemma PublishedNeverChanges(c: Codec, a: Archive, segments: seq<Segment>, steps: seq<Step>, i: nat)
    requires Lawful(c) && Consistent(c, a, segments) && i in a.files
    ensures i in Run(c, a, steps).files && Run(c, a, steps).files[i] == a.files[i]
  {
    var grown := EveryRunIsConsistent(c, a, segments, steps);
    FilesStay(c, a.spec, a.files, segments, Run(c, a, steps).files, grown, i);
  }

  /** From an empty stream on, reopening succeeds as long as the listing and index limits are
      not reached, and finds the frontier of the whole directory. */
  lemma StreamsReopen(c: Codec, spec: Spec, steps: seq<Step>) returns (segments: seq<Segment>)
    requires Lawful(c) && SpecError(spec).None?
    ensures var a := Run(c, Archive(spec, map[], map[]), steps);
            && Consistent(c, a, segments)
            && (|a.files| <= MAX_SEGMENT_FILES && spec.baselineIndex + |a.files| < U64_MAX ==>
                  Opened(c, spec, a.files) == Some(FrontierAt(c, spec, segments, |segments|)))
  {
    var empty := Archive(spec, map[], map[]);
    assert Consistent(c, empty, []);
    segments := EveryRunIsConsistent(c, empty, [], steps);
    var files := Run(c, empty, steps).files;
    if Verifiable(c, spec, files) {
      OneChain(c, spec, files, ChainOf(c, spec, files), segments);
    }
  }

  // ---------------------------------------------------------------- the writer

  predicate Ascending(names: seq<nat>) {
    forall i, j :: 0 <= i < j < |names| ==> names[i] < names[j]
  }

  predicate Listed(files: Files, names: seq<nat>, i: nat) {
    i in files <==> i in names
  }

  /** The names are those of the files, in order. */
  ghost predicate IsListing(files: Files, names: seq<nat>) {
    Ascending(names) && |names| == |files| && forall i :: Listed(files, names, i)
  }

  /** The file indexes in order. */
  method ListSegmentFiles(files: Files) returns (names: seq<nat>)
    ensures IsListing(files, names)
  {
    names := [];
    var todo := files.Keys;
    while todo != {}
      invariant todo <= files.Keys && Ascending(names) && |names| + |todo| == |files|
      invariant forall i :: i in files <==> i in names || i in todo
      invariant forall i, k :: i in todo && 0 <= k < |names| ==> names[k] < i
      decreases |todo|
    {
      var least := LeastName(todo);
      names := names + [least];
      todo := todo - {least};
    }
  }

  method LeastName(s: set<nat>) returns (least: nat)
    requires s != {}
    ensures least in s && forall i :: i in s ==> least <= i
  {
    least :| least in s;
    var todo := s - {least};
    while todo != {}
      invariant todo <= s && least in s && forall i :: i in s ==> i in todo || least <= i
      decreases |todo|
    {
      var i :| i in todo;
      if i < least {
        least := i;
      }
      todo := todo - {i};
    }
  }

  /** The names seen so far are consecutive and their files are these segments. */
  ghost predicate Walked(c: Codec, spec: Spec, files: Files, names: seq<nat>, segments: seq<Segment>) {
    && |segments| <= |names| && IsChain(c, spec, segments)
    && (forall k :: 0 <= k < |segments| ==>
       names[k] == spec.baselineIndex + 1 + k && FileIs(c, spec, files, segments, k))
  }

  /** In a held directory the next name is the next index, and its file continues the chain. */
  lemma HeldGoesOn(c: Codec, spec: Spec, files: Files, names: seq<nat>, segments: seq<Segment>, held: seq<Segment>)
    requires Lawful(c) && IsListing(files, names)
    requires Walked(c, spec, files, names, segments) && Holds(c, spec, files, held) && |segments| < |names|
    ensures var k := |segments|;
            && names[k] == spec.baselineIndex + 1 + k && k < |held| && names[k] in files &&
               c.decode(files[names[k]]) == Ok(held[k])
            && LinkError(spec.timeline, FrontierAt(c, spec, segments, k), held[k]).None?
  {
    var k := |segments|;
    var next := spec.baselineIndex + 1 + k;
    NextName(c, spec, files, names, segments, held);
    SamePrefix(c, spec, files, segments, held);
    FrontierIndex(c, spec, segments, k);
    assert FileIs(c, spec, files, held, k) && LinkedAt(c, spec, held, k) && ReadsBack(c, held[k]);
    assert HashInput(c, spec, held, k) == HashInput(c, spec, segments, k);
  }

  lemma NextName(c: Codec, spec: Spec, files: Files, names: seq<nat>, segments: seq<Segment>, held: seq<Segment>)
    requires IsListing(files, names)
    requires Walked(c, spec, files, names, segments) && Holds(c, spec, files, held) && |segments| < |names|
    ensures names[|segments|] == spec.baselineIndex + 1 + |segments| && |segments| < |held|
  {
    var k := |segments|;
    var next := spec.baselineIndex + 1 + k;
    assert Listed(files, names, names[k]) && Listed(files, names, next);
    assert k > 0 ==> names[k - 1] < names[k];
    assert next <= names[k] <= spec.baselineIndex + |held|;
    assert FileIs(c, spec, files, held, k);
    var j :| 0 <= j < |names| && names[j] == next;
  }

  lemma SamePrefix(c: Codec, spec: Spec, files: Files, segments: seq<Segment>, held: seq<Segment>)
    requires Lawful(c) && IsChain(c, spec, segments) && Holds(c, spec, files, held) && |segments| <= |held|
    requires forall k :: 0 <= k < |segments| ==> FileIs(c, spec, files, segments, k)
    ensures segments <= held
  {
    forall k | 0 <= k < |segments|
      ensures segments[k] == held[k]
    {
      assert FileIs(c, spec, files, segments, k) && FileIs(c, spec, files, held, k);
      assert LinkedAt(c, spec, segments, k) && LinkedAt(c, spec, held, k);
      assert ReadsBack(c, segments[k]) && ReadsBack(c, held[k]);
    }
  }

  method ReadNext(c: Codec, spec: Spec, files: Files, index: nat, f: Frontier)
    returns (r: Result<Segment, ArchiveError>)
    requires index in files
    ensures r.Ok? <==>
              && index == f.index + 1 && c.decode(files[index]).Ok?
              && LinkError(spec.timeline, f, c.decode(files[index]).value).None?
    ensures r.Ok? ==> c.decode(files[index]) == Ok(r.value)
  {
    if index != f.index + 1 {
      return Err(UnexpectedIndex);
    }
    var s := c.decode(files[index]);
    if s.Err? {
      return Err(Malformed(s.error));
    }
    if s.value.timeline != spec.timeline {
      return Err(ForeignTimeline);
    }
    if s.value.record.index != index {
      return Err(FilenameMismatch);
    }
    if s.value.previousHash != f.hash {
      return Err(BrokenLink);
    }
    r := Ok(s.value);
  }

  /** Walks the listing with the running frontier. */
  method WalkFiles(c: Codec, spec: Spec, files: Files, names: seq<nat>)
    returns (r: Result<Frontier, ArchiveError>, ghost segments: seq<Segment>)
    requires Lawful(c) && spec.baselineIndex < U64_MAX && IsListing(files, names)
    ensures r.Ok? ==> |segments| == |names| && Walked(c, spec, files, names, segments)
    ensures r.Ok? ==> r.value == FrontierAt(c, spec, segments, |segments|)
    ensures r.Ok? ==> spec.baselineIndex + |names| < U64_MAX
    ensures r.Err? ==> !Verifiable(c, spec, files)
  {
    var frontier := Baseline(c, spec);
    segments := [];
    for k := 0 to |names|
      invariant |segments| == k && Walked(c, spec, files, names, segments) &&
                frontier == FrontierAt(c, spec, segments, k)
      invariant frontier.index == spec.baselineIndex + k < U64_MAX
    {
      assert Listed(files, names, names[k]);
      var s := ReadNext(c, spec, files, names[k], frontier);
      if s.Err? {
        BrokenWalk(c, spec, files, names, segments);
        return Err(s.error), segments;
      }
      WalkGoesOn(c, spec, files, names, segments, s.value);
      segments := segments + [s.value];
      frontier := Advance(c, frontier, s.value);
      if frontier.index >= U64_MAX {
        return Err(Overflow), segments;
      }
    }
    r := Ok(frontier);
  }

  method VerifyChain(c: Codec, spec: Spec, files: Files) returns (r: Result<Frontier, ArchiveError>)
    requires Lawful(c)
    ensures r.Ok? <==> Opened(c, spec, files).Some?
    ensures r.Ok? ==> Some(r.value) == Opened(c, spec, files)
  {
    if spec.baselineIndex >= U64_MAX {
      return Err(Overflow);
    }
    if SpecError(spec).Some? {
      return Err(Malformed(SpecError(spec).value));
    }
    var names := ListSegmentFiles(files);
    if |names| > MAX_SEGMENT_FILES {
      return Err(TooManySegments);
    }
    ghost var segments;
    r, segments := WalkFiles(c, spec, files, names);
    if r.Ok? {
      WholeWalk(c, spec, files, names, segments);
    }
  }

  lemma WalkGoesOn(c: Codec, spec: Spec, files: Files, names: seq<nat>, segments: seq<Segment>, s: Segment)
    requires Lawful(c) && Walked(c, spec, files, names, segments) && |segments| < |names|
    requires names[|segments|] == spec.baselineIndex + 1 + |segments| && names[|segments|] in files &&
             c.decode(files[names[|segments|]]) == Ok(s)
    requires LinkError(spec.timeline, FrontierAt(c, spec, segments, |segments|), s).None?
    ensures Walked(c, spec, files, names, segments + [s])
    ensures FrontierAt(c, spec, segments + [s], |segments| + 1) ==
            Advance(c, FrontierAt(c, spec, segments, |segments|), s)
  {
    assert Canonical(c, files[names[|segments|]]);
    ChainGrows(c, spec, segments, s);
    var grown := segments + [s];
    forall k | 0 <= k < |grown|
      ensures names[k] == spec.baselineIndex + 1 + k && FileIs(c, spec, files, grown, k)
    {
      if k < |segments| {
        assert FileIs(c, spec, files, segments, k);
      }
    }
  }

  lemma BrokenWalk(c: Codec, spec: Spec, files: Files, names: seq<nat>, segments: seq<Segment>)
    requires Lawful(c) && IsListing(files, names)
    requires Walked(c, spec, files, names, segments) && |segments| < |names| && names[|segments|] in files
    requires var f, index := FrontierAt(c, spec, segments, |segments|), names[|segments|];
             index != f.index + 1 || c.decode(files[index]).Err? ||
               LinkError(spec.timeline, f, c.decode(files[index]).value).Some?
    ensures !Verifiable(c, spec, files)
  {
    if Verifiable(c, spec, files) {
      FrontierIndex(c, spec, segments, |segments|);
      HeldGoesOn(c, spec, files, names, segments, ChainOf(c, spec, files));
    }
  }

  lemma WholeWalk(c: Codec, spec: Spec, files: Files, names: seq<nat>, segments: seq<Segment>)
    requires Lawful(c) && SpecError(spec).None? && |files| <= MAX_SEGMENT_FILES &&
             spec.baselineIndex + |files| < U64_MAX
    requires Walked(c, spec, files, names, segments) && |segments| == |names| && IsListing(files, names)
    ensures Opened(c, spec, files) == Some(FrontierAt(c, spec, segments, |segments|))
  {
    forall i | i in files
      ensures spec.baselineIndex < i <= spec.baselineIndex + |segments|
    {
      assert Listed(files, names, i);
      var k :| 0 <= k < |names| && names[k] == i;
    }
    assert Holds(c, spec, files, segments);
    OneChain(c, spec, files, ChainOf(c, spec, files), segments);
  }

  /** The directory of a stream, shared by its writers. */
  class Directory {
    const spec: Spec
    var files: Files

    constructor (spec: Spec)
      ensures this.spec == spec && files == map[]
    {
      this.spec := spec;
      files := map[];
    }
  }

  class PitrArchiveWriter {
    const dir: Directory
    var frontier: Frontier
    var usable: bool

    /** Recomputes the frontier from the directory as it is. */
    constructor (c: Codec, dir: Directory)
      requires Lawful(c)
      ensures this.dir == dir && (usable <==> Opened(c, dir.spec, dir.files).Some?)
      ensures usable ==> Some(frontier) == Opened(c, dir.spec, dir.files)
    {
      var r := VerifyChain(c, dir.spec, dir.files);
      this.dir := dir;
      usable := r.Ok?;
      frontier := if r.Ok? then r.value else Frontier(0, 0, [], 0);
    }

    method AppendCommitted(c: Codec, entry: RaftStore.LogEntry, now: nat) returns (r: Result<nat, ArchiveError>)
      modifies this`frontier, dir
      ensures Appended(dir.files, frontier, r) == Append(c, dir.spec, old(dir.files), old(frontier), entry, now)
    {
      var record := c.record(entry);
      if record.Err? {
        return Err(Malformed(record.error));
      }
      if frontier.index >= U64_MAX {
        return Err(Overflow);
      }
      var expected := frontier.index + 1;
      if record.value.index < expected {
        var existing := ReadSegment(c, dir.spec, dir.files, frontier, record.value.index);
        if existing.Err? {
          return Err(existing.error);
        }
        if existing.value.record == record.value && existing.value.timeline == dir.spec.timeline {
          return Ok(record.value.index);
        }
        return Err(ConflictingDuplicate);
      }
      if record.value.index > expected {
        return Err(GapInEntries);
      }
      var segment := NewSegment(dir.spec.timeline, now, frontier.hash, record.value);
      if !c.valid(segment) {
        return Err(InvalidSegment);
      }
      var published := PublishSegment(c, segment);
      if published.Err? {
        return Err(published.error);
      }
      frontier := Frontier(segment.record.index, segment.record.term, published.value, frontier.segments + 1);
      r := Ok(segment.record.index);
    }

    method PublishSegment(c: Codec, s: Segment) returns (r: Result<Hash, ArchiveError>)
      modifies dir
      ensures match Publish(c, old(dir.files), s)
              case Ok((files', hash)) => r == Ok(hash) && dir.files == files'
              case Err(e) => r == Err(e) && dir.files == old(dir.files)
    {
      if s.record.index in dir.files {
        var existing := c.decode(dir.files[s.record.index]);
        if existing.Err? {
          return Err(Malformed(existing.error));
        }
        if SameLogicalSegment(existing.value, s) {
          return Ok(c.hash(c.encode(existing.value)));
        }
        return Err(ConflictingDuplicate);
      }
      dir.files := dir.files[s.record.index := c.encode(s)];
      r := Ok(c.hash(c.encode(s)));
    }
  }
}
