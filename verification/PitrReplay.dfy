/** Replay of an archive over its baseline to an exact index, and lineages of recovered clusters. */
module PitrReplay {
  import opened Base
  import opened Membership
  import opened PitrSegment
  import opened PitrChain
  import opened PitrArchive
  import RaftStore

  datatype ReplayError =
    | TargetOutOfRange | Unreadable(error: ArchiveError) | WrongSegment | ApplyFailed
    | MembershipReplay(why: MembershipError)
    | IndexOverflowed | EmptyNodeId | ReusedNodeId | GenerationOverflowed

  /** The recovered state machine, membership, term and count of replayed records. */
  datatype Recovered<S> = Recovered(state: S, membership: ClusterMembership, term: nat, records: nat)

  /** How entries act on the state machine, which may fail, and on the membership. */
  datatype Semantics<!S> = Semantics(
    apply: (S, RaftStore.LogEntry) -> Option<S>,
    member: (ClusterMembership, Record) -> Outcome)

  /** Records that carry a membership change make its transition at their index. */
  function Replaying<S>(
      apply: (S, RaftStore.LogEntry) -> Option<S>, change: Record -> Option<Change>): Semantics<S>
  {
    Semantics(apply, (m: ClusterMembership, r: Record) =>
      match change(r) case None => Ok(m) case Some(c) => Transition(m, c, r.index))
  }

  // ---------------------------------------------------------------- the meaning of a recovery

  function Fold<S>(apply: (S, RaftStore.LogEntry) -> Option<S>, s: S, entries: seq<RaftStore.LogEntry>): Option<S>
    decreases |entries|
  {
    if entries == [] then Some(s)
    else
      match Fold(apply, s, entries[..|entries| - 1])
      case None => None
      case Some(t) => apply(t, entries[|entries| - 1])
  }

  function EntriesOf(segments: seq<Segment>): (r: seq<RaftStore.LogEntry>)
    ensures |r| == |segments| && forall i :: 0 <= i < |r| ==> r[i] == ToLogEntry(segments[i].record)
  {
    seq(|segments|, i requires 0 <= i < |segments| => ToLogEntry(segments[i].record))
  }

  lemma {:induction false} FoldJoins<S>(
      apply: (S, RaftStore.LogEntry) -> Option<S>, s: S, a: seq<RaftStore.LogEntry>, b: seq<RaftStore.LogEntry>)
    ensures Fold(apply, s, a + b) ==
              match Fold(apply, s, a) case None => None case Some(t) => Fold(apply, t, b)
    decreases |b|
  {
    if b == [] {
      assert a + b == a;
    } else {
      FoldJoins(apply, s, a, b[..|b| - 1]);
      assert (a + b)[..|a + b| - 1] == a + b[..|b| - 1];
    }
  }

  // ---------------------------------------------------------------- replay

  function ReplayOne<S>(sem: Semantics<S>, r: Recovered<S>, record: Record): Result<Recovered<S>, ReplayError> {
    match sem.apply(r.state, ToLogEntry(record))
    case None => Err(ApplyFailed)
    case Some(state) =>
      match sem.member(r.membership, record)
      case Ok(m) => Ok(Recovered(state, m, record.term, r.records + 1))
      case Err(e) => Err(MembershipReplay(e))
  }

  /** Replaying the first `k` segments over the baseline. */
  function Replayed<S>(sem: Semantics<S>, base: Recovered<S>, segments: seq<Segment>, k: nat)
    : Result<Recovered<S>, ReplayError>
    requires k <= |segments|
  {
    if k == 0 then Ok(base)
    else
      match Replayed(sem, base, segments, k - 1)
      case Err(e) => Err(e)
      case Ok(r) => ReplayOne(sem, r, segments[k - 1].record)
  }

  /** A replay that goes through has folded exactly those entries. */
  lemma {:induction false} ReplayFolds<S>(sem: Semantics<S>, base: Recovered<S>, segments: seq<Segment>, k: nat)
    requires k <= |segments| && Replayed(sem, base, segments, k).Ok?
    ensures var r := Replayed(sem, base, segments, k).value;
            && Some(r.state) == Fold(sem.apply, base.state, EntriesOf(segments[..k])) && r.records == base.records + k
            && r.term == if k == 0 then base.term else segments[k - 1].record.term
  {
    if k == 0 {
      assert EntriesOf(segments[..0]) == [];
    } else {
      ReplayFolds(sem, base, segments, k - 1);
      var entries := EntriesOf(segments[..k]);
      assert entries[..k - 1] == EntriesOf(segments[..k - 1]);
    }
  }

  lemma ReplayOneKeepsMembership<S>(
      apply: (S, RaftStore.LogEntry) -> Option<S>, change: Record -> Option<Change>, r: Recovered<S>, record: Record)
    requires Valid(r.membership) && ReplayOne(Replaying(apply, change), r, record).Ok?
    ensures var m, m' := r.membership, ReplayOne(Replaying(apply, change), r, record).value.membership;
            Valid(m') && m.generation <= m'.generation && Known(m) <= Known(m') && m.removed <= m'.removed
  {
    if change(record).Some? {
      TransitionKeeps(r.membership, change(record).value, record.index);
    }
  }

  /** The replayed changes lead to a valid membership that has forgotten no identity. */
  lemma {:induction false} ReplayKeepsMembership<S>(
      apply: (S, RaftStore.LogEntry) -> Option<S>, change: Record -> Option<Change>, base: Recovered<S>,
      segments: seq<Segment>, k: nat)
    requires k <= |segments| && Valid(base.membership) && Replayed(Replaying(apply, change), base, segments, k).Ok?
    ensures var m, m' := base.membership, Replayed(Replaying(apply, change), base, segments, k).value.membership;
            Valid(m') && m.generation <= m'.generation && Known(m) <= Known(m') && m.removed <= m'.removed
  {
    if k > 0 {
      ReplayKeepsMembership(apply, change, base, segments, k - 1);
      ReplayOneKeepsMembership(apply, change,
        Replayed(Replaying(apply, change), base, segments, k - 1).value, segments[k - 1].record);
    }
  }

  /** Once a replay fails it fails for every later target. */
  lemma {:induction false} FailedReplayStays<S>(
      sem: Semantics<S>, base: Recovered<S>, segments: seq<Segment>, j: nat, k: nat)
    requires j <= k <= |segments| && Replayed(sem, base, segments, j).Err?
    ensures Replayed(sem, base, segments, k) == Replayed(sem, base, segments, j)
  {
    if j < k {
      FailedReplayStays(sem, base, segments, j, k - 1);
    }
  }

  /** The writer's directory holds this chain, and its frontier is on it. */
  ghost predicate Backed(c: Codec, spec: Spec, files: Files, f: Frontier, held: seq<Segment>, known: nat) {
    Holds(c, spec, files, held) && known <= |held| && f == FrontierAt(c, spec, held, known)
  }

  lemma {:induction false} ReplayOfPrefix<S>(
      sem: Semantics<S>, base: Recovered<S>, segments: seq<Segment>, held: seq<Segment>, k: nat)
    requires k <= |segments| && segments <= held
    ensures Replayed(sem, base, segments, k) == Replayed(sem, base, held, k)
  {
    if k > 0 {
      ReplayOfPrefix(sem, base, segments, held, k - 1);
    }
  }

  /** The segment stands at the index of its timeline and continues the chain. */
  predicate Continues(spec: Spec, index: nat, previous: Hash, s: Segment) {
    s.timeline == spec.timeline && s.record.index == index && s.previousHash == previous
  }

  method NextSegment(c: Codec, spec: Spec, files: Files, f: Frontier, index: nat, previous: Hash)
    returns (r: Result<Segment, ReplayError>)
    ensures r.Ok? ==> ReadSegment(c, spec, files, f, index) == Ok(r.value) && Continues(spec, index, previous, r.value)
    ensures r.Err? ==> Misread(c, spec, files, f, index, previous)
  {
    var s := ReadSegment(c, spec, files, f, index);
    if s.Err? {
      return Err(Unreadable(s.error));
    }
    if !Continues(spec, index, previous, s.value) {
      return Err(WrongSegment);
    }
    r := Ok(s.value);
  }

  predicate Misread(c: Codec, spec: Spec, files: Files, f: Frontier, index: nat, previous: Hash) {
    var s := ReadSegment(c, spec, files, f, index);
    s.Err? || !Continues(spec, index, previous, s.value)
  }

  /** Reads, checks and applies one segment after another up to the target: what comes out is
      the fold of a chain of exactly the files up to it, and a held directory always gives it. */
  method RecoverTo<S(!new)>(
      c: Codec, spec: Spec, files: Files, f: Frontier, sem: Semantics<S>, base: Recovered<S>, target: nat)
    returns (r: Result<Recovered<S>, ReplayError>, ghost segments: seq<Segment>)
    requires Lawful(c)
    ensures !(spec.baselineIndex <= target <= f.index) ==> r == Err(TargetOutOfRange)
    ensures r.Ok? ==> Read(c, spec, files, target, segments) && r == Replayed(sem, base, segments, |segments|)
    ensures spec.baselineIndex <= target <= f.index && target < U64_MAX ==>
              forall held, known :: Backed(c, spec, files, f, held, known) ==> Reaches(spec, held, target, sem, base, r)
  {
    segments := [];
    if target < spec.baselineIndex || target > f.index {
      return Err(TargetOutOfRange), segments;
    }
    if spec.baselineIndex >= U64_MAX {
      return Err(IndexOverflowed), segments;
    }
    var replayed := base;
    var previous := c.hash(c.anchor(spec));
    var expected := spec.baselineIndex + 1;
    while expected <= target
      invariant spec.baselineIndex < expected <= target + 1 && expected <= U64_MAX
      invariant Read(c, spec, files, expected - 1, segments)
      invariant previous == c.hash(HashInput(c, spec, segments, |segments|))
      invariant Replayed(sem, base, segments, |segments|) == Ok(replayed)
    {
      var s := NextSegment(c, spec, files, f, expected, previous);
      if s.Err? {
        NeverMisread(c, spec, files, f, expected, segments);
        return Err(s.error), segments;
      }
      var next := ReplayOne(sem, replayed, s.value.record);
      ReadOn(c, spec, files, f, expected, segments, s.value);
      ReplayOn(sem, base, segments, replayed, s.value);
      HashOn(c, spec, segments, s.value);
      segments := segments + [s.value];
      if next.Err? {
        SameFailure(c, spec, files, f, expected, target, segments, sem, base, next.error);
        return Err(next.error), segments;
      }
      replayed := next.value;
      previous := c.hash(c.encode(s.value));
      if expected >= U64_MAX {
        return Err(IndexOverflowed), segments;
      }
      expected := expected + 1;
    }
    SameResult(c, spec, files, f, target, segments, sem, base);
    r := Ok(replayed);
  }

  lemma ReplayOn<S>(
      sem: Semantics<S>, base: Recovered<S>, segments: seq<Segment>, replayed: Recovered<S>, s: Segment)
    requires Replayed(sem, base, segments, |segments|) == Ok(replayed)
    ensures Replayed(sem, base, segments + [s], |segments| + 1) == ReplayOne(sem, replayed, s.record)
  {
    ReplayOfPrefix(sem, base, segments, segments + [s], |segments|);
  }

  lemma HashOn(c: Codec, spec: Spec, segments: seq<Segment>, s: Segment)
    ensures HashInput(c, spec, segments + [s], |segments| + 1) == c.encode(s)
  {
  }

  /** These segments are the files above the baseline up to the target. */
  ghost predicate Read(c: Codec, spec: Spec, files: Files, target: nat, segments: seq<Segment>) {
    && spec.baselineIndex + |segments| == target && IsChain(c, spec, segments)
    && forall k :: 0 <= k < |segments| ==> FileIs(c, spec, files, segments, k)
  }

  ghost predicate Reaches<S(!new)>(
      spec: Spec, held: seq<Segment>, target: nat, sem: Semantics<S>, base: Recovered<S>,
      r: Result<Recovered<S>, ReplayError>)
  {
    spec.baselineIndex <= target <= spec.baselineIndex + |held| &&
      r == Replayed(sem, base, held, target - spec.baselineIndex)
  }

  lemma ReadOn(c: Codec, spec: Spec, files: Files, f: Frontier, index: nat, segments: seq<Segment>, s: Segment)
    requires Lawful(c) && index > 0 && Read(c, spec, files, index - 1, segments) &&
             ReadSegment(c, spec, files, f, index) == Ok(s)
    requires s.timeline == spec.timeline && s.record.index == index &&
             s.previousHash == c.hash(HashInput(c, spec, segments, |segments|))
    ensures Read(c, spec, files, index, segments + [s])
  {
    assert Canonical(c, files[index]);
    FrontierIndex(c, spec, segments, |segments|);
    ChainGrows(c, spec, segments, s);
    var grown := segments + [s];
    forall k | 0 <= k < |grown|
      ensures FileIs(c, spec, files, grown, k)
    {
      if k < |segments| {
        assert FileIs(c, spec, files, segments, k);
      }
    }
  }

  lemma ReadIsHeld(
      c: Codec, spec: Spec, files: Files, f: Frontier, target: nat, segments: seq<Segment>, held: seq<Segment>,
      known: nat)
    requires Lawful(c) && Read(c, spec, files, target, segments) && target <= f.index &&
             Backed(c, spec, files, f, held, known)
    ensures segments <= held && target <= spec.baselineIndex + |held|
  {
    FrontierIndex(c, spec, held, known);
    SamePrefix(c, spec, files, segments, held);
  }

  /** In a held directory the next segment reads back and fits. */
  lemma NeverMisread(c: Codec, spec: Spec, files: Files, f: Frontier, index: nat, segments: seq<Segment>)
    requires Lawful(c) && spec.baselineIndex < index <= f.index && Read(c, spec, files, index - 1, segments)
    requires Misread(c, spec, files, f, index, c.hash(HashInput(c, spec, segments, |segments|)))
    ensures forall held, known :: !Backed(c, spec, files, f, held, known)
  {
    forall held, known | Backed(c, spec, files, f, held, known)
      ensures false
    {
      ReadIsHeld(c, spec, files, f, index - 1, segments, held, known);
      FrontierIndex(c, spec, held, known);
      HeldReads(c, spec, files, held, |segments|);
    }
  }

  lemma HeldReads(c: Codec, spec: Spec, files: Files, held: seq<Segment>, k: nat)
    requires Lawful(c) && Holds(c, spec, files, held) && k < |held|
    ensures spec.baselineIndex + 1 + k in files && c.decode(files[spec.baselineIndex + 1 + k]) == Ok(held[k]) &&
            LinkedAt(c, spec, held, k)
  {
    assert FileIs(c, spec, files, held, k) && LinkedAt(c, spec, held, k) && ReadsBack(c, held[k]);
  }

  lemma SameResult<S(!new)>(
      c: Codec, spec: Spec, files: Files, f: Frontier, target: nat, segments: seq<Segment>, sem: Semantics<S>,
      base: Recovered<S>)
    requires Lawful(c) && Read(c, spec, files, target, segments) && target <= f.index
    ensures forall held, known :: Backed(c, spec, files, f, held, known) ==>
              Reaches(spec, held, target, sem, base, Replayed(sem, base, segments, |segments|))
  {
    forall held, known | Backed(c, spec, files, f, held, known)
      ensures Reaches(spec, held, target, sem, base, Replayed(sem, base, segments, |segments|))
    {
      ReadIsHeld(c, spec, files, f, target, segments, held, known);
      ReplayOfPrefix(sem, base, segments, held, |segments|);
    }
  }

  lemma SameFailure<S(!new)>(
      c: Codec, spec: Spec, files: Files, f: Frontier, index: nat, target: nat, segments: seq<Segment>,
                             sem: Semantics<S>, base: Recovered<S>, error: ReplayError)
    requires Lawful(c) && Read(c, spec, files, index, segments) && index <= target <= f.index
    requires Replayed(sem, base, segments, |segments|) == Err(error)
    ensures forall held, known :: Backed(c, spec, files, f, held, known) ==>
               Reaches(spec, held, target, sem, base, Err(error))
  {
    forall held, known | Backed(c, spec, files, f, held, known)
      ensures Reaches(spec, held, target, sem, base, Err(error))
    {
      ReadIsHeld(c, spec, files, f, index, segments, held, known);
      FrontierIndex(c, spec, held, known);
      ReplayOfPrefix(sem, base, segments, held, |segments|);
      FailedReplayStays(sem, base, held, |segments|, target - spec.baselineIndex);
    }
  }

  /** Recovery composes across a branch: replaying the child over what the parent recovered at
      the branch point folds the parent's entries up to it and the child's from there on. */
  lemma ReplayComposes<S>(
      sem: Semantics<S>, base: Recovered<S>, parent: seq<Segment>, b: nat, childBase: Recovered<S>,
      child: seq<Segment>, k: nat)
    requires b <= |parent| && k <= |child| && Replayed(sem, base, parent, b).Ok? &&
             Replayed(sem, childBase, child, k).Ok?
    requires childBase.state == Replayed(sem, base, parent, b).value.state
    ensures Some(Replayed(sem, childBase, child, k).value.state) ==
              Fold(sem.apply, base.state, EntriesOf(parent[..b]) + EntriesOf(child[..k]))
  {
    ReplayFolds(sem, base, parent, b);
    ReplayFolds(sem, childBase, child, k);
    FoldJoins(sem.apply, base.state, EntriesOf(parent[..b]), EntriesOf(child[..k]));
  }

  // ---------------------------------------------------------------- lineages of recovered clusters

  /** A recovered cluster has one new voter; everyone known before is tombstoned. */
  function RecoveryMembership(source: ClusterMembership, target: nat, id: NodeId, blank: NodeId -> bool)
    : Result<ClusterMembership, ReplayError>
  {
    if blank(id) then Err(EmptyNodeId)
    else if id in Known(source) then Err(ReusedNodeId)
    else if source.generation >= U64_MAX then Err(GenerationOverflowed)
    else Ok(ClusterMembership(Membership.FORMAT_VERSION, source.generation + 1, target, {id}, {}, None, Known(source)))
  }

  datatype Event = Changed(change: Change, index: nat) | Recovery(id: NodeId, target: nat)

  function After(m: ClusterMembership, e: Event, blank: NodeId -> bool): Option<ClusterMembership> {
    match e
    case Changed(change, index) =>
      (match Transition(m, change, index)
       case Ok(m') => Some(m')
       case Err(_) => None)
    case Recovery(id, target) =>
      match RecoveryMembership(m, target, id, blank)
      case Ok(m') => Some(m')
      case Err(_) => None
  }

  /** The memberships along a history in which every event was accepted. */
  ghost predicate IsLineage(ms: seq<ClusterMembership>, events: seq<Event>, blank: NodeId -> bool) {
    |ms| == |events| + 1 && forall i :: 0 <= i < |events| ==> Accepted(ms, events, blank, i)
  }

  predicate Accepted(ms: seq<ClusterMembership>, events: seq<Event>, blank: NodeId -> bool, i: nat)
    requires i < |events| < |ms|
  {
    After(ms[i], events[i], blank) == Some(ms[i + 1])
  }

  lemma EventKeeps(m: ClusterMembership, e: Event, blank: NodeId -> bool)
    requires After(m, e, blank).Some?
    ensures var m' := After(m, e, blank).value;
            && Valid(m') && Known(m) <= Known(m') && m.generation < m'.generation
            && (e.Recovery? ==> e.id !in Known(m) && e.id in Known(m'))
  {
    match e {
      case Changed(change, index) => TransitionKeeps(m, change, index);
      case Recovery(_, _) =>
    }
  }

  ghost predicate Remembers(m: ClusterMembership, m': ClusterMembership) {
    Known(m) <= Known(m') && m.generation < m'.generation
  }

  lemma LineageStep(ms: seq<ClusterMembership>, events: seq<Event>, blank: NodeId -> bool, i: nat)
    requires IsLineage(ms, events, blank) && i < |events|
    ensures After(ms[i], events[i], blank) == Some(ms[i + 1]) && Remembers(ms[i], ms[i + 1])
    ensures events[i].Recovery? ==> events[i].id !in Known(ms[i]) && events[i].id in Known(ms[i + 1])
  {
    assert Accepted(ms, events, blank, i);
    EventKeeps(ms[i], events[i], blank);
  }

  lemma {:induction false} RemembersAll(ms: seq<ClusterMembership>, i: nat, j: nat)
    requires i < j < |ms| && forall k :: 0 < k < |ms| ==> Remembers(ms[k - 1], ms[k])
    ensures Remembers(ms[i], ms[j])
    decreases j
  {
    assert Remembers(ms[j - 1], ms[j]);
    if i < j - 1 {
      RemembersAll(ms, i, j - 1);
    }
  }

  lemma LineageKeeps(ms: seq<ClusterMembership>, events: seq<Event>, blank: NodeId -> bool, i: nat, j: nat)
    requires IsLineage(ms, events, blank) && i < j < |ms|
    ensures Remembers(ms[i], ms[j])
  {
    forall k | 0 < k < |ms|
      ensures Remembers(ms[k - 1], ms[k])
    {
      LineageStep(ms, events, blank, k - 1);
    }
    RemembersAll(ms, i, j);
  }

  /** Along any lineage generations strictly grow, and a recovery never takes the identity of
      any node the lineage has known, that of an earlier recovery included. */
  lemma IdentitiesNeverRepeat(ms: seq<ClusterMembership>, events: seq<Event>, blank: NodeId -> bool, i: nat, j: nat)
    requires IsLineage(ms, events, blank) && i < j < |events|
    ensures ms[i].generation < ms[j].generation
    ensures events[j].Recovery? ==> events[j].id !in Known(ms[i])
    ensures events[i].Recovery? && events[j].Recovery? ==> events[i].id != events[j].id
  {
    LineageKeeps(ms, events, blank, i, j);
    LineageStep(ms, events, blank, i);
    LineageStep(ms, events, blank, j);
    if i + 1 < j {
      LineageKeeps(ms, events, blank, i + 1, j);
    }
  }
}
