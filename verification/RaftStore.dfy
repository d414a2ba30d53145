/** Durable Raft state kept as a compact hard state plus one record per log entry, against
    the reference store that keeps the whole state each time. */
module RaftStore {
  import opened Base
  import opened Wire
  import opened Membership

  datatype LogEntry = LogEntry(term: nat, index: nat, command: Bytes)

  datatype PersistentState = PersistentState(
    currentTerm: nat,
    votedFor: Option<NodeId>,
    log: seq<LogEntry>, // log[0] is the sentinel of the snapshot boundary
    snapshotIndex: nat,
    snapshotTerm: nat,
    membership: Option<ClusterMembership>)

  /** The layout every Raft state has: a sentinel followed by consecutive entries. */
  ghost predicate WellFormed(s: PersistentState) {
    && |s.log| >= 1
    && s.log[0] == LogEntry(s.snapshotTerm, s.snapshotIndex, [])
    && LastLogIndex(s) <= U64_MAX
    && (forall i :: 0 <= i < |s.log| ==> s.log[i].index == s.snapshotIndex + i && s.log[i].term <= U64_MAX)
  }

  function LastLogIndex(s: PersistentState): nat
    requires |s.log| >= 1
  {
    s.snapshotIndex + |s.log| - 1
  }

  function LastLogTerm(s: PersistentState): nat {
    if s.log == [] then 0 else s.log[|s.log| - 1].term
  }

  function TermAt(s: PersistentState, index: nat): nat {
    if index < s.snapshotIndex || index - s.snapshotIndex >= |s.log| then 0
    else s.log[index - s.snapshotIndex].term
  }

  predicate InLog(s: PersistentState, index: nat) {
    s.snapshotIndex < index < s.snapshotIndex + |s.log|
  }

  function Entry(s: PersistentState, index: nat): LogEntry
    requires InLog(s, index)
  {
    s.log[index - s.snapshotIndex]
  }

  // ---------------------------------------------------------------- entry records

  const LOG_ENTRY_MAGIC: Bytes := [0x4E, 0x42, 0x4C, 0x32] // "NBL2"
  const LOG_ENTRY_VERSION: byte := 1
  const LOG_ENTRY_HEADER_BYTES := 25

  datatype StoreError =
    | CommandTooLong | Truncated | BadMagic | BadVersion | IndexMismatch | LengthMismatch
    | EndBeforeBoundary | MissingEntry | TermMismatch | SnapshotLengthMismatch | SnapshotWithoutState

  predicate Encodable(e: LogEntry) {
    |e.command| < U32_LIMIT
  }

  function EncodeEntry(e: LogEntry): Bytes {
    LOG_ENTRY_MAGIC + [LOG_ENTRY_VERSION] + BigEndian(e.term, 8) + BigEndian(e.index, 8) +
    BigEndian(|e.command|, 4) + e.command
  }

  function DecodeEntry(expected: nat, b: Bytes): Result<LogEntry, StoreError> {
    if |b| < LOG_ENTRY_HEADER_BYTES then Err(Truncated)
    else if b[..4] != LOG_ENTRY_MAGIC then Err(BadMagic)
    else if b[4] != LOG_ENTRY_VERSION then Err(BadVersion)
    else if FromBigEndian(b[13..21]) != expected then Err(IndexMismatch)
    else if |b| != LOG_ENTRY_HEADER_BYTES + FromBigEndian(b[21..25]) then Err(LengthMismatch)
    else Ok(LogEntry(FromBigEndian(b[5..13]), expected, b[25..]))
  }

  lemma EntryRoundTrip(e: LogEntry)
    requires Encodable(e) && e.term <= U64_MAX && e.index <= U64_MAX
    ensures DecodeEntry(e.index, EncodeEntry(e)) == Ok(e)
  {
    var b := EncodeEntry(e);
    Pow256Values();
    BigEndianRoundTrip(e.term, 8);
    BigEndianRoundTrip(e.index, 8);
    BigEndianRoundTrip(|e.command|, 4);
    assert b[..4] == LOG_ENTRY_MAGIC;
    assert b[5..13] == BigEndian(e.term, 8);
    assert b[13..21] == BigEndian(e.index, 8);
    assert b[21..25] == BigEndian(|e.command|, 4);
    assert b[25..] == e.command;
  }

  // ---------------------------------------------------------------- staged snapshots

  datatype StagedKind = Creation | Installation

  datatype StagedSnapshot = StagedSnapshot(kind: StagedKind, lastIndex: nat, lastTerm: nat, data: Bytes)

  const STAGED_MAGIC: Bytes := [0x4E, 0x42, 0x53, 0x54] // "NBST"
  const STAGED_VERSION: byte := 1
  const STAGED_HEADER_BYTES := 22

  function EncodeStaged(s: StagedSnapshot): Bytes {
    STAGED_MAGIC + [STAGED_VERSION, if s.kind.Creation? then 1 else 2] +
    BigEndian(s.lastIndex, 8) + BigEndian(s.lastTerm, 8) + s.data
  }

  function DecodeStaged(b: Bytes): Option<StagedSnapshot> {
    if |b| < STAGED_HEADER_BYTES || b[..4] != STAGED_MAGIC || b[4] != STAGED_VERSION then None
    else if b[5] == 1 then
      Some(StagedSnapshot(Creation, FromBigEndian(b[6..14]), FromBigEndian(b[14..22]), b[22..]))
    else if b[5] == 2 then
      Some(StagedSnapshot(Installation, FromBigEndian(b[6..14]), FromBigEndian(b[14..22]), b[22..]))
    else None
  }

  lemma StagedRoundTrip(s: StagedSnapshot)
    requires s.lastIndex <= U64_MAX && s.lastTerm <= U64_MAX
    ensures DecodeStaged(EncodeStaged(s)) == Some(s)
  {
    var b := EncodeStaged(s);
    Pow256Values();
    BigEndianRoundTrip(s.lastIndex, 8);
    BigEndianRoundTrip(s.lastTerm, 8);
    assert b[..4] == STAGED_MAGIC;
    assert b[6..14] == BigEndian(s.lastIndex, 8);
    assert b[14..22] == BigEndian(s.lastTerm, 8);
    assert b[22..] == s.data;
  }

  // ---------------------------------------------------------------- the reference store

  /** Keeps the last state and snapshot as they are. */
  datatype MemStore = MemStore(active: Option<(PersistentState, Bytes)>, staged: Option<StagedSnapshot>)

  // ---------------------------------------------------------------- the incremental store

  datatype Hard = Hard(
    currentTerm: nat, votedFor: Option<NodeId>, snapshotIndex: nat, snapshotTerm: nat,
    membership: Option<ClusterMembership>, lastLogIndex: nat, lastLogTerm: nat, snapshotBytesLen: nat)

  /** The meta column family: hard state, the historical whole-state blob, entry records,
      snapshot bytes and the staged snapshot, each under its own key. */
  datatype Meta = Meta(
    hard: Option<Hard>,
    legacy: Option<PersistentState>,
    entries: map<nat, Bytes>,
    snapshot: Option<Bytes>,
    staged: Option<Bytes>)

  function HardOf(s: PersistentState, snapshot: Bytes): Hard
    requires |s.log| >= 1
  {
    Hard(s.currentTerm, s.votedFor, s.snapshotIndex, s.snapshotTerm, s.membership,
         LastLogIndex(s), LastLogTerm(s), |snapshot|)
  }

  function Record(s: PersistentState, i: nat): Bytes {
    if InLog(s, i) then EncodeEntry(Entry(s, i)) else []
  }

  /** Entry records after writing those from `first` up to, not including, `end`; the record
      of the boundary itself is never written. */
  function PutUpTo(entries: map<nat, Bytes>, s: PersistentState, first: nat, end: nat): map<nat, Bytes> {
    if end <= first then entries
    else
      var m := PutUpTo(entries, s, first, end - 1);
      if InLog(s, end - 1) then m[end - 1 := Record(s, end - 1)] else m
  }

  lemma {:induction false} PutUpToAt(entries: map<nat, Bytes>, s: PersistentState, first: nat, end: nat, i: nat)
    ensures var r := PutUpTo(entries, s, first, end);
            if first <= i < end && InLog(s, i) then i in r && r[i] == Record(s, i)
            else (i in r <==> i in entries) && (i in r ==> r[i] == entries[i])
    decreases end
  {
    if first < end {
      PutUpToAt(entries, s, first, end - 1, i);
      PutUpToLast(entries, s, first, end);
    }
  }

  lemma PutUpToLast(entries: map<nat, Bytes>, s: PersistentState, first: nat, end: nat)
    requires first < end
    ensures var m := PutUpTo(entries, s, first, end - 1);
            PutUpTo(entries, s, first, end) == if InLog(s, end - 1) then m[end - 1 := Record(s, end - 1)] else m
  {
  }

  function WithoutRange(entries: map<nat, Bytes>, first: nat, last: nat): map<nat, Bytes> {
    map i | i in entries && !(first <= i <= last) :: entries[i]
  }

  /** The durable log is an acceptable prefix: only the new entries are written. */
  predicate HotPath(previous: Hard, s: PersistentState)
    requires |s.log| >= 1
  {
    previous.snapshotIndex == s.snapshotIndex && previous.lastLogIndex <= LastLogIndex(s) &&
    TermAt(s, previous.lastLogIndex) == previous.lastLogTerm
  }

  /** First entry record a save writes. */
  function FirstWritten(previous: Option<Hard>, s: PersistentState): nat
    requires |s.log| >= 1
  {
    if previous.Some? && HotPath(previous.value, s) then SaturatingInc(previous.value.lastLogIndex)
    else SaturatingInc(s.snapshotIndex)
  }

  /** A range that is written neither starts before the boundary nor holds too long a command. */
  predicate CanSave(previous: Option<Hard>, s: PersistentState)
    requires |s.log| >= 1
  {
    && (FirstWritten(previous, s) <= LastLogIndex(s) ==> s.snapshotIndex <= FirstWritten(previous, s))
    && forall i :: 0 < i < |s.log| && FirstWritten(previous, s) <= s.snapshotIndex + i ==> Encodable(s.log[i])
  }

  /** Entry records left when the stale range is deleted. */
  function SaveBase(db: Meta, previous: Option<Hard>, s: PersistentState): map<nat, Bytes>
    requires |s.log| >= 1
  {
    if previous.None? || HotPath(previous.value, s) then db.entries
    else WithoutRange(db.entries, SaturatingInc(previous.value.snapshotIndex), previous.value.lastLogIndex)
  }

  function Saved(db: Meta, previous: Option<Hard>, s: PersistentState, snapshot: Bytes): Meta
    requires |s.log| >= 1
  {
    var next := HardOf(s, snapshot);
    var moved := previous.None? || previous.value.snapshotIndex != s.snapshotIndex;
    Meta(Some(next), None,
         PutUpTo(SaveBase(db, previous, s), s, FirstWritten(previous, s), next.lastLogIndex + 1),
         if moved || previous.value.snapshotBytesLen != next.snapshotBytesLen then Some(snapshot) else db.snapshot,
         None)
  }

  function LoadEntries(entries: map<nat, Bytes>, first: nat, last: nat): Result<seq<LogEntry>, StoreError>
    decreases last + 1 - first
  {
    if first > last then Ok([])
    else if first !in entries then Err(MissingEntry)
    else
      match DecodeEntry(first, entries[first])
      case Err(e) => Err(e)
      case Ok(entry) =>
        match LoadEntries(entries, first + 1, last)
        case Err(e) => Err(e)
        case Ok(rest) => Ok([entry] + rest)
  }

  function OrEmpty(b: Option<Bytes>): Bytes {
    if b.Some? then b.value else []
  }

  function Loaded(db: Meta): Result<Option<(PersistentState, Bytes)>, StoreError> {
    match db.hard
    case Some(h) =>
      if h.lastLogIndex < h.snapshotIndex then Err(EndBeforeBoundary)
      else (
        match LoadEntries(db.entries, SaturatingInc(h.snapshotIndex), h.lastLogIndex)
        case Err(e) => Err(e)
        case Ok(rest) =>
          var s := PersistentState(h.currentTerm, h.votedFor, [LogEntry(h.snapshotTerm, h.snapshotIndex, [])] + rest,
                                   h.snapshotIndex, h.snapshotTerm, h.membership);
          if LastLogTerm(s) != h.lastLogTerm then Err(TermMismatch)
          else if |OrEmpty(db.snapshot)| != h.snapshotBytesLen then Err(SnapshotLengthMismatch)
          else Ok(Some((s, OrEmpty(db.snapshot)))))
    case None =>
      match db.legacy
      case Some(s) => Ok(Some((s, OrEmpty(db.snapshot))))
      case None => if db.snapshot.Some? then Err(SnapshotWithoutState) else Ok(None)
  }

  // ---------------------------------------------------------------- one save, one load

  /** The records are exactly those of the log above the boundary. */
  ghost predicate Records(entries: map<nat, Bytes>, s: PersistentState) {
    && (forall i :: i in entries ==> InLog(s, i))
    && (forall i :: InLog(s, i) ==> RecordOf(entries, s, i))
  }

  /** The split representation holds this state and snapshot. */
  ghost predicate Holds(db: Meta, s: PersistentState, snapshot: Bytes) {
    && WellFormed(s) && db.hard == Some(HardOf(s, snapshot))
    && db.legacy.None? && Records(db.entries, s) && db.snapshot == Some(snapshot)
  }

  ghost predicate RecordOf(entries: map<nat, Bytes>, s: PersistentState, i: nat)
    requires InLog(s, i)
  {
    i in entries && Encodable(Entry(s, i)) && entries[i] == EncodeEntry(Entry(s, i))
  }

  lemma {:induction false} LoadsRecords(entries: map<nat, Bytes>, s: PersistentState, first: nat)
    requires WellFormed(s) && s.snapshotIndex < first <= LastLogIndex(s) + 1
    requires forall i :: first <= i && InLog(s, i) ==> RecordOf(entries, s, i)
    ensures LoadEntries(entries, first, LastLogIndex(s)) == Ok(s.log[first - s.snapshotIndex..])
    decreases LastLogIndex(s) + 1 - first
  {
    if first <= LastLogIndex(s) {
      assert InLog(s, first) && RecordOf(entries, s, first);
      EntryRoundTrip(Entry(s, first));
      LoadsRecords(entries, s, first + 1);
      var k := first - s.snapshotIndex;
      assert s.log[k..] == [s.log[k]] + s.log[k + 1..];
    } else {
      assert s.log[first - s.snapshotIndex..] == [];
    }
  }

  /** Loading returns what is held, unless the snapshot boundary is the last representable
      index: the saturated range then asks for a record that is never written. */
  lemma LoadsWhatIsHeldIff(db: Meta, s: PersistentState, snapshot: Bytes)
    requires Holds(db, s, snapshot)
    ensures Loaded(db) == Ok(Some((s, snapshot))) <==> s.snapshotIndex < U64_MAX
  {
    if s.snapshotIndex < U64_MAX {
      LoadsWhatIsHeld(db, s, snapshot);
    } else {
      LastBoundaryFails(db, s, snapshot);
    }
  }

  lemma LoadsWhatIsHeld(db: Meta, s: PersistentState, snapshot: Bytes)
    requires Holds(db, s, snapshot) && s.snapshotIndex < U64_MAX
    ensures Loaded(db) == Ok(Some((s, snapshot)))
  {
    LoadsRecords(db.entries, s, s.snapshotIndex + 1);
    LoadedWhen(db, s, snapshot);
  }

  lemma LoadedWhen(db: Meta, s: PersistentState, snapshot: Bytes)
    requires |s.log| >= 1 && s.log[0] == LogEntry(s.snapshotTerm, s.snapshotIndex, [])
    requires db.hard == Some(HardOf(s, snapshot)) && OrEmpty(db.snapshot) == snapshot
    requires LoadEntries(db.entries, SaturatingInc(s.snapshotIndex), LastLogIndex(s)) == Ok(s.log[1..])
    ensures Loaded(db) == Ok(Some((s, snapshot)))
  {
    assert [s.log[0]] + s.log[1..] == s.log;
  }

  lemma LastBoundaryFails(db: Meta, s: PersistentState, snapshot: Bytes)
    requires Holds(db, s, snapshot) && s.snapshotIndex == U64_MAX
    ensures Loaded(db) == Err(MissingEntry)
  {
    assert !InLog(s, U64_MAX);
    assert LoadEntries(db.entries, U64_MAX, LastLogIndex(s)) == Err(MissingEntry);
  }

  predicate SameTermAt(a: PersistentState, b: PersistentState, i: nat) {
    InLog(a, i) && InLog(b, i) && Entry(a, i).term == Entry(b, i).term
  }

  /** Log Matching (section 5.3 of the Raft paper): logs that agree on the term at one index
      agree on all entries up to it. */
  ghost predicate LogsMatch(a: PersistentState, b: PersistentState) {
    forall i, j :: SameTermAt(a, b, i) && j <= i && InLog(a, j) && InLog(b, j) ==> Entry(a, j) == Entry(b, j)
  }

  /** The hot path leaves the record at `i` as it is. */
  predicate Kept(previous: Hard, s: PersistentState, i: nat)
    requires |s.log| >= 1
  {
    HotPath(previous, s) && i < SaturatingInc(previous.lastLogIndex) && InLog(s, i)
  }

  /** What a save needs of the state it replaces: where the hot path is taken, the durable
      entries are a prefix of the new log; where the snapshot bytes are kept, they are the same. */
  ghost predicate Continues(s: PersistentState, snapshot: Bytes, s': PersistentState, snapshot': Bytes)
    requires |s.log| >= 1 && |s'.log| >= 1
  {
    && (forall i :: Kept(HardOf(s, snapshot), s', i) && InLog(s, i) ==> Entry(s, i) == Entry(s', i))
    && (s.snapshotIndex == s'.snapshotIndex && |snapshot| == |snapshot'| ==> snapshot == snapshot')
  }

  /** Raft's guarantees are enough for that: Log Matching, and one snapshot per boundary. */
  lemma MatchingLogsContinue(s: PersistentState, snapshot: Bytes, s': PersistentState, snapshot': Bytes)
    requires WellFormed(s) && WellFormed(s') && LogsMatch(s, s')
    requires s.snapshotIndex == s'.snapshotIndex ==> snapshot == snapshot'
    ensures Continues(s, snapshot, s', snapshot')
  {
    if HotPath(HardOf(s, snapshot), s') && |s.log| > 1 {
      var last := LastLogIndex(s);
      assert SameTermAt(s, s', last);
      forall i | Kept(HardOf(s, snapshot), s', i) && InLog(s, i)
        ensures Entry(s, i) == Entry(s', i)
      {
        assert i <= last;
      }
    }
  }

  /** Saving over a held state leaves the new one held, with no stale record, exactly when the
      save continues it. */
  lemma SaveHolds(db: Meta, s: PersistentState, snapshot: Bytes, s': PersistentState, snapshot': Bytes)
    requires Holds(db, s, snapshot) && WellFormed(s') && CanSave(db.hard, s')
    requires Continues(s, snapshot, s', snapshot')
    ensures Holds(Saved(db, db.hard, s', snapshot'), s', snapshot')
  {
    var entries := Saved(db, db.hard, s', snapshot').entries;
    forall i | i in entries
      ensures InLog(s', i)
    {
      RecordAfterSave(db, s, snapshot, s', snapshot', i);
    }
    forall i | InLog(s', i)
      ensures RecordOf(entries, s', i)
    {
      RecordAfterSave(db, s, snapshot, s', snapshot', i);
    }
  }

  lemma WrittenIsEncodable(previous: Option<Hard>, s: PersistentState, i: nat)
    requires |s.log| >= 1 && CanSave(previous, s) && InLog(s, i) && FirstWritten(previous, s) <= i
    ensures Encodable(Entry(s, i))
  {
    var k := i - s.snapshotIndex;
    assert s.log[k] == Entry(s, i);
  }

  lemma RecordAfterSave(db: Meta, s: PersistentState, snapshot: Bytes, s': PersistentState, snapshot': Bytes, i: nat)
    requires Holds(db, s, snapshot) && WellFormed(s') && CanSave(db.hard, s')
    requires Kept(HardOf(s, snapshot), s', i) && InLog(s, i) ==> Entry(s, i) == Entry(s', i)
    ensures var entries := Saved(db, db.hard, s', snapshot').entries;
            (i in entries <==> InLog(s', i)) && (InLog(s', i) ==> RecordOf(entries, s', i))
  {
    PutUpToAt(SaveBase(db, db.hard, s'), s', FirstWritten(db.hard, s'), LastLogIndex(s') + 1, i);
    if InLog(s', i) && FirstWritten(db.hard, s') <= i {
      WrittenIsEncodable(db.hard, s', i);
    }
    if InLog(s, i) {
      assert RecordOf(db.entries, s, i);
    }
  }

  /** A first save, over a fresh or a historical store. */
  lemma FirstSaveHolds(db: Meta, s: PersistentState, snapshot: Bytes)
    requires db.hard.None? && db.entries == map[] && WellFormed(s) && CanSave(None, s)
    ensures Holds(Saved(db, None, s, snapshot), s, snapshot)
  {
    var entries := Saved(db, None, s, snapshot).entries;
    forall i
      ensures i in entries ==> InLog(s, i)
      ensures InLog(s, i) ==> RecordOf(entries, s, i)
    {
      PutUpToAt(db.entries, s, FirstWritten(None, s), LastLogIndex(s) + 1, i);
      if InLog(s, i) {
        WrittenIsEncodable(None, s, i);
      }
    }
  }

  /** A save can be loaded back exactly when it continues the state it replaces and its
      boundary is not the last representable index. */
  lemma SaveLoadsBackIff(db: Meta, s: PersistentState, snapshot: Bytes, s': PersistentState, snapshot': Bytes)
    requires Holds(db, s, snapshot) && WellFormed(s') && CanSave(db.hard, s')
    ensures Loaded(Saved(db, db.hard, s', snapshot')) == Ok(Some((s', snapshot'))) <==>
              Continues(s, snapshot, s', snapshot') && s'.snapshotIndex < U64_MAX
  {
    var db' := Saved(db, db.hard, s', snapshot');
    if Continues(s, snapshot, s', snapshot') {
      SaveHolds(db, s, snapshot, s', snapshot');
      LoadsWhatIsHeldIff(db', s', snapshot');
    } else if Loaded(db') == Ok(Some((s', snapshot'))) {
      assert OrEmpty(db'.snapshot) == snapshot';
      forall i | Kept(HardOf(s, snapshot), s', i) && InLog(s, i)
        ensures Entry(s, i) == Entry(s', i)
      {
        KeptRecordLoads(db, s, snapshot, s', snapshot', i);
      }
    }
  }

  /** A record the hot path leaves in place is the one a later load returns. */
  lemma KeptRecordLoads(db: Meta, s: PersistentState, snapshot: Bytes, s': PersistentState, snapshot': Bytes, i: nat)
    requires Holds(db, s, snapshot) && WellFormed(s') && InLog(s, i)
    requires Kept(HardOf(s, snapshot), s', i)
    requires Loaded(Saved(db, db.hard, s', snapshot')) == Ok(Some((s', snapshot')))
    ensures Entry(s, i) == Entry(s', i)
  {
    LoadedRecordDecodes(Saved(db, db.hard, s', snapshot'), s', snapshot', i);
    KeptRecordStays(db, s, snapshot, s', snapshot', i);
    HeldRecordDecodes(db, s, snapshot, i);
  }

  lemma KeptRecordStays(db: Meta, s: PersistentState, snapshot: Bytes, s': PersistentState, snapshot': Bytes, i: nat)
    requires |s.log| >= 1 && |s'.log| >= 1 && db.hard == Some(HardOf(s, snapshot)) && i in db.entries
    requires Kept(HardOf(s, snapshot), s', i)
    ensures i in Saved(db, db.hard, s', snapshot').entries
    ensures Saved(db, db.hard, s', snapshot').entries[i] == db.entries[i]
  {
    PutUpToAt(db.entries, s', FirstWritten(db.hard, s'), LastLogIndex(s') + 1, i);
  }

  lemma HeldRecordDecodes(db: Meta, s: PersistentState, snapshot: Bytes, i: nat)
    requires Holds(db, s, snapshot) && InLog(s, i)
    ensures i in db.entries && DecodeEntry(i, db.entries[i]) == Ok(Entry(s, i))
  {
    assert RecordOf(db.entries, s, i);
    EntryRoundTrip(Entry(s, i));
  }

  lemma {:induction false} LoadedEntryDecodes(entries: map<nat, Bytes>, first: nat, last: nat, i: nat)
    requires LoadEntries(entries, first, last).Ok? && first <= i <= last
    ensures |LoadEntries(entries, first, last).value| == last + 1 - first
    ensures i in entries && DecodeEntry(i, entries[i]) == Ok(LoadEntries(entries, first, last).value[i - first])
    decreases last + 1 - first
  {
    if first < i {
      LoadedEntryDecodes(entries, first + 1, last, i);
    } else if first < last {
      LoadedEntryDecodes(entries, first + 1, last, last);
    }
  }

  lemma LoadedRecordDecodes(db: Meta, s: PersistentState, snapshot: Bytes, i: nat)
    requires Loaded(db) == Ok(Some((s, snapshot))) && WellFormed(s) && db.hard == Some(HardOf(s, snapshot)) &&
             InLog(s, i)
    ensures i in db.entries && DecodeEntry(i, db.entries[i]) == Ok(Entry(s, i))
  {
    LoadedEntryDecodes(db.entries, s.snapshotIndex + 1, LastLogIndex(s), i);
  }

  // ---------------------------------------------------------------- runs against the reference

  /** A running store: what is durable, and the cached copy of the hard state. */
  datatype Node = Node(db: Meta, cached: Option<Hard>)

  datatype Op =
    | Save(state: PersistentState, snapshot: Bytes)
    | Stage(candidate: StagedSnapshot)
    | ClearStaged
    | Load
    | Restart // a crash between batches: only what is durable survives

  function CurrentHard(n: Node): Option<Hard> {
    if n.cached.Some? then n.cached else n.db.hard
  }

  predicate Accepts(n: Node, op: Op) {
    op.Save? ==> |op.state.log| >= 1 && CanSave(CurrentHard(n), op.state)
  }

  function Do(n: Node, op: Op): Node {
    match op
    case Save(state, snapshot) =>
      if Accepts(n, op) then
        var db := Saved(n.db, CurrentHard(n), state, snapshot);
        Node(db, db.hard)
      else n.(cached := CurrentHard(n))
    case Stage(candidate) => n.(db := n.db.(staged := Some(EncodeStaged(candidate))))
    case ClearStaged => n.(db := n.db.(staged := None))
    case Load => if Loaded(n.db).Ok? && n.db.hard.Some? then n.(cached := n.db.hard) else n
    case Restart => Node(n.db, None)
  }

  /** The reference store; a refused save leaves it alone. */
  function MemDo(m: MemStore, op: Op, accepted: bool): MemStore {
    match op
    case Save(state, snapshot) => if accepted then MemStore(Some((state, snapshot)), None) else m
    case Stage(candidate) => m.(staged := Some(candidate))
    case ClearStaged => m.(staged := None)
    case Load => m
    case Restart => m
  }

  function Go(n: Node, ops: seq<Op>): Node
    decreases ops
  {
    if ops == [] then n else Go(Do(n, ops[0]), ops[1..])
  }

  function MemGo(n: Node, m: MemStore, ops: seq<Op>): MemStore
    decreases ops
  {
    if ops == [] then m else MemGo(Do(n, ops[0]), MemDo(m, ops[0], Accepts(n, ops[0])), ops[1..])
  }

  /** Saves obey the Raft layout, Log Matching and one snapshot per boundary. */
  ghost predicate Legal(m: MemStore, op: Op) {
    match op
    case Save(state, snapshot) =>
      && WellFormed(state) && state.snapshotIndex < U64_MAX
      && (m.active.Some? ==>
            var (s, snap) := m.active.value;
            LogsMatch(s, state) && (s.snapshotIndex == state.snapshotIndex ==> snap == snapshot))
    case Stage(candidate) => candidate.lastIndex <= U64_MAX && candidate.lastTerm <= U64_MAX
    case _ => true
  }

  ghost predicate LegalRun(n: Node, m: MemStore, ops: seq<Op>)
    decreases ops
  {
    ops == [] || (Legal(m, ops[0]) && LegalRun(Do(n, ops[0]), MemDo(m, ops[0], Accepts(n, ops[0])), ops[1..]))
  }

  ghost predicate ActiveAgrees(db: Meta, active: Option<(PersistentState, Bytes)>) {
    match active
    case None => db.hard.None? && db.legacy.None? && db.entries == map[] && db.snapshot.None?
    case Some((s, snapshot)) =>
      && WellFormed(s)
      && (|| (Holds(db, s, snapshot) && s.snapshotIndex < U64_MAX)
          || (db.hard.None? && db.legacy == Some(s) && db.entries == map[] && OrEmpty(db.snapshot) == snapshot))
  }

  ghost predicate StagedAgrees(db: Meta, staged: Option<StagedSnapshot>) {
    match staged
    case None => db.staged.None?
    case Some(c) => c.lastIndex <= U64_MAX && c.lastTerm <= U64_MAX && db.staged == Some(EncodeStaged(c))
  }

  /** The durable state stands for the reference state, and the cache, when filled, is the
      durable hard state. */
  ghost predicate Refines(n: Node, m: MemStore) {
    ActiveAgrees(n.db, m.active) && StagedAgrees(n.db, m.staged) && (n.cached.Some? ==> n.cached == n.db.hard)
  }

  lemma SaveRefines(n: Node, m: MemStore, state: PersistentState, snapshot: Bytes)
    requires Refines(n, m) && Legal(m, Save(state, snapshot)) && CanSave(CurrentHard(n), state)
    ensures ActiveAgrees(Saved(n.db, CurrentHard(n), state, snapshot), Some((state, snapshot)))
  {
    if n.db.hard.None? {
      FirstSaveHolds(n.db, state, snapshot);
    } else {
      var (s, snap) := m.active.value;
      MatchingLogsContinue(s, snap, state, snapshot);
      SaveHolds(n.db, s, snap, state, snapshot);
    }
  }

  lemma DoRefines(n: Node, m: MemStore, op: Op)
    requires Refines(n, m) && Legal(m, op)
    ensures Refines(Do(n, op), MemDo(m, op, Accepts(n, op)))
  {
    match op
    case Save(state, snapshot) =>
      if Accepts(n, op) {
        SaveRefines(n, m, state, snapshot);
      }
    case _ =>
  }

  lemma LoadsReference(n: Node, m: MemStore)
    requires Refines(n, m)
    ensures Loaded(n.db) == Ok(m.active)
    ensures (if n.db.staged.Some? then DecodeStaged(n.db.staged.value) else None) == m.staged
  {
    if m.active.Some? && n.db.hard.Some? {
      var (s, snapshot) := m.active.value;
      LoadsWhatIsHeldIff(n.db, s, snapshot);
    }
    if m.staged.Some? {
      StagedRoundTrip(m.staged.value);
    }
  }

  /** After any run of saves, staging, loads and crashes, loading returns exactly what the
      reference store holds: the last accepted state and snapshot, and the staged snapshot. */
  lemma {:induction false} EveryRunRefines(n: Node, m: MemStore, ops: seq<Op>)
    requires Refines(n, m) && LegalRun(n, m, ops)
    ensures Refines(Go(n, ops), MemGo(n, m, ops))
    ensures Loaded(Go(n, ops).db) == Ok(MemGo(n, m, ops).active)
    decreases ops
  {
    if ops == [] {
      LoadsReference(n, m);
    } else {
      DoRefines(n, m, ops[0]);
      EveryRunRefines(Do(n, ops[0]), MemDo(m, ops[0], Accepts(n, ops[0])), ops[1..]);
    }
  }

  // ---------------------------------------------------------------- the store object

  class RocksDbRaftStore {
    var db: Meta
    var cached: Option<Hard>

    function View(): Node
      reads this
    {
      Node(db, cached)
    }

    ghost predicate Valid()
      reads this
    {
      cached.Some? ==> cached == db.hard
    }

    constructor (db: Meta)
      ensures Valid() && View() == Node(db, None)
    {
      this.db := db;
      cached := None;
    }

    method CurrentHardState() returns (h: Option<Hard>)
      requires Valid()
      modifies this`cached
      ensures h == old(CurrentHard(View())) && cached == h && Valid()
    {
      if cached.None? {
        cached := db.hard;
      }
      h := cached;
    }

    /** Builds the batch over ranges of the log and publishes it at once, then the cache. */
    method SaveState(state: PersistentState, snapshot: Bytes) returns (ok: bool)
      requires Valid() && WellFormed(state)
      modifies this
      ensures Valid() && View() == Do(old(View()), Save(state, snapshot))
      ensures ok <==> Accepts(old(View()), Save(state, snapshot))
    {
      var previous := CurrentHardState();
      var next := HardOf(state, snapshot);
      var entries := db.entries;
      var bytes := db.snapshot;
      var first := SaturatingInc(state.snapshotIndex);
      if previous.None? {
        bytes := Some(snapshot);
      } else if previous.value.snapshotIndex != next.snapshotIndex {
        entries := DeleteLogRange(entries, SaturatingInc(previous.value.snapshotIndex), previous.value.lastLogIndex);
        bytes := Some(snapshot);
      } else {
        if previous.value.lastLogIndex <= next.lastLogIndex &&
           TermAt(state, previous.value.lastLogIndex) == previous.value.lastLogTerm {
          first := SaturatingInc(previous.value.lastLogIndex);
        } else {
          entries := DeleteLogRange(entries, SaturatingInc(state.snapshotIndex), previous.value.lastLogIndex);
        }
        if previous.value.snapshotBytesLen != next.snapshotBytesLen {
          bytes := Some(snapshot);
        }
      }
      var written := PutLogRange(entries, state, first, next.lastLogIndex);
      CanSaveRange(previous, state);
      if written.None? {
        return false;
      }
      db := Meta(Some(next), None, written.value, bytes, None);
      cached := Some(next);
      ok := true;
    }

    method LoadState() returns (r: Result<Option<(PersistentState, Bytes)>, StoreError>)
      requires Valid()
      modifies this`cached
      ensures r == Loaded(db) && View() == Do(old(View()), Load)
    {
      if db.hard.None? {
        return Loaded(db);
      }
      var h := db.hard.value;
      if h.lastLogIndex < h.snapshotIndex {
        return Err(EndBeforeBoundary);
      }
      var rest := ReadEntries(db.entries, SaturatingInc(h.snapshotIndex), h.lastLogIndex);
      if rest.Err? {
        return Err(rest.error);
      }
      var log := [LogEntry(h.snapshotTerm, h.snapshotIndex, [])] + rest.value;
      var s := PersistentState(h.currentTerm, h.votedFor, log, h.snapshotIndex, h.snapshotTerm, h.membership);
      if LastLogTerm(s) != h.lastLogTerm {
        return Err(TermMismatch);
      }
      if |OrEmpty(db.snapshot)| != h.snapshotBytesLen {
        return Err(SnapshotLengthMismatch);
      }
      cached := Some(h);
      r := Ok(Some((s, OrEmpty(db.snapshot))));
    }
  }

  lemma CanSaveRange(previous: Option<Hard>, s: PersistentState)
    requires |s.log| >= 1
    ensures CanSave(previous, s) <==> EncodableBelow(s, FirstWritten(previous, s), LastLogIndex(s) + 1)
  {
    if CanSave(previous, s) {
      forall i | FirstWritten(previous, s) <= i && InLog(s, i)
        ensures Encodable(Entry(s, i))
      {
        WrittenIsEncodable(previous, s, i);
      }
    }
    if EncodableBelow(s, FirstWritten(previous, s), LastLogIndex(s) + 1) {
      forall k | 0 < k < |s.log| && FirstWritten(previous, s) <= s.snapshotIndex + k
        ensures Encodable(s.log[k])
      {
        assert Entry(s, s.snapshotIndex + k) == s.log[k];
      }
    }
  }

  ghost predicate EncodableBelow(s: PersistentState, first: nat, end: nat) {
    && (first < end ==> s.snapshotIndex <= first)
    && forall i :: first <= i < end && InLog(s, i) ==> Encodable(Entry(s, i))
  }

  /** Entry records after writing those from `first` up to, not including, `end`, above a boundary. */
  function PutBy(
      entries: map<nat, Bytes>, boundary: nat, record: nat -> Bytes, first: nat, end: nat): map<nat, Bytes>
  {
    if end <= first then entries
    else
      var m := PutBy(entries, boundary, record, first, end - 1);
      if end - 1 > boundary then m[end - 1 := record(end - 1)] else m
  }

  ghost predicate FitBelow(boundary: nat, fits: nat -> bool, first: nat, end: nat) {
    (first < end ==> boundary <= first) && forall i :: first <= i < end && i > boundary ==> fits(i)
  }

  /** Writes the records one by one; the boundary has none, and what lies before it is missing. */
  method PutRange(
      entries: map<nat, Bytes>, boundary: nat, fits: nat -> bool, record: nat -> Bytes, first: nat, last: nat)
    returns (r: Option<map<nat, Bytes>>)
    ensures r.Some? <==> FitBelow(boundary, fits, first, last + 1)
    ensures r.Some? ==> r.value == PutBy(entries, boundary, record, first, last + 1)
  {
    var batch: map<nat, Bytes> := entries;
    var index: nat := first;
    while index <= last
      invariant first <= index && (index <= last + 1 || index == first)
      invariant FitBelow(boundary, fits, first, index)
      invariant batch == PutBy(entries, boundary, record, first, index)
      decreases last + 1 - index
    {
      if index < boundary || (index != boundary && !fits(index)) {
        return None;
      }
      if index != boundary {
        batch := batch[index := record(index)];
      }
      index := index + 1;
    }
    r := Some(batch);
  }

  function FitsIn(s: PersistentState): nat -> bool {
    (i: nat) => InLog(s, i) ==> Encodable(Entry(s, i))
  }

  function RecordIn(s: PersistentState): nat -> Bytes {
    (i: nat) => Record(s, i)
  }

  lemma {:induction false} PutByIsPutUpTo(entries: map<nat, Bytes>, s: PersistentState, first: nat, end: nat)
    requires end <= s.snapshotIndex + |s.log|
    ensures PutBy(entries, s.snapshotIndex, RecordIn(s), first, end) == PutUpTo(entries, s, first, end)
    decreases end
  {
    if first < end {
      PutByIsPutUpTo(entries, s, first, end - 1);
      PutUpToLast(entries, s, first, end);
    }
  }

  lemma FitIsEncodable(s: PersistentState, first: nat, end: nat)
    requires end <= s.snapshotIndex + |s.log|
    ensures FitBelow(s.snapshotIndex, FitsIn(s), first, end) <==> EncodableBelow(s, first, end)
  {
    if FitBelow(s.snapshotIndex, FitsIn(s), first, end) {
      forall i | first <= i < end && InLog(s, i)
        ensures Encodable(Entry(s, i))
      {
        assert FitsIn(s)(i);
      }
    }
  }

  method PutLogRange(entries: map<nat, Bytes>, s: PersistentState, first: nat, last: nat)
    returns (r: Option<map<nat, Bytes>>)
    requires |s.log| >= 1 && last == LastLogIndex(s)
    ensures r.Some? <==> EncodableBelow(s, first, last + 1)
    ensures r.Some? ==> r.value == PutUpTo(entries, s, first, last + 1)
  {
    r := PutRange(entries, s.snapshotIndex, FitsIn(s), RecordIn(s), first, last);
    FitIsEncodable(s, first, last + 1);
    PutByIsPutUpTo(entries, s, first, last + 1);
  }

  function Prepend(read: seq<LogEntry>, rest: Result<seq<LogEntry>, StoreError>): Result<seq<LogEntry>, StoreError> {
    match rest
    case Err(e) => Err(e)
    case Ok(entries) => Ok(read + entries)
  }

  method ReadEntries(entries: map<nat, Bytes>, first: nat, last: nat) returns (r: Result<seq<LogEntry>, StoreError>)
    ensures r == LoadEntries(entries, first, last)
  {
    var read: seq<LogEntry> := [];
    var i := first;
    assert LoadEntries(entries, first, last).Ok? ==>
      [] + LoadEntries(entries, first, last).value == LoadEntries(entries, first, last).value;
    while i <= last
      invariant Prepend(read, LoadEntries(entries, i, last)) == LoadEntries(entries, first, last)
      decreases last + 1 - i
    {
      if i !in entries {
        return Err(MissingEntry);
      }
      var entry := DecodeEntry(i, entries[i]);
      if entry.Err? {
        return Err(entry.error);
      }
      ghost var rest := LoadEntries(entries, i + 1, last);
      assert rest.Ok? ==> read + ([entry.value] + rest.value) == (read + [entry.value]) + rest.value;
      read := read + [entry.value];
      i := i + 1;
    }
    assert read + [] == read;
    r := Ok(read);
  }

  method DeleteLogRange(entries: map<nat, Bytes>, first: nat, last: nat) returns (r: map<nat, Bytes>)
    ensures r == WithoutRange(entries, first, last)
  {
    r := entries;
    for index := first to (if first > last then first else last + 1)
      invariant r == map i | i in entries && !(first <= i < index) :: entries[i]
    {
      r := r - {index};
    }
  }
}
