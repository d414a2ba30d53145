/** Three runs of the transaction manager and the collector in which a snapshot does not keep
    what it reads, one for each way in which the steps of begin, commit and collection can
    interleave badly. */
module MvccRaces {
  import opened Base
  import opened Versions
  import opened Mvcc
  import opened Calls

  /** One row with the value `a`, and nothing going on. */
  function Start(row: RowKey, a: Bytes): Db {
    Db(map[VersionKey(row, 1) := a], 5, {}, {}, map[], Free, [], Idle)
  }

  /** Transaction `id` buffers one write and commits it. */
  function WriteSteps(id: nat, write: Write, stamp: nat): seq<Step> {
    [Buffer(id, write)] + CommitSteps(id, stamp)
  }

  function Wrote(s: Db, id: nat, write: Write, stamp: nat): Db {
    s.(store := s.store[VersionKey(write.row, stamp) := write.value], clock := stamp,
       active := s.active - {id}, live := s.live - {id},
       history := s.history + [Commit(id, stamp, {write.row})])
  }

  ghost predicate CanWrite(s: Db, id: nat, row: RowKey, stamp: nat) {
    && s.lock.Free? && id in s.live && s.live[id] == [] && s.clock < stamp <= U64_MAX
    && forall t: nat :: VersionKey(row, t) in s.store ==> t <= id
  }

  lemma OneBuffered(s: Db, id: nat, write: Write, stamp: nat)
    requires CanWrite(s, id, write.row, stamp)
    ensures var s' := Apply(s, Buffer(id, write)); s'.live[id] == [write] && !Loses(s', id)
  {
    assert Buffered([], write) == [write];
  }

  lemma FlushOne(s: Store, write: Write, stamp: nat)
    ensures Flush(s, [write], stamp) == s[VersionKey(write.row, stamp) := write.value]
    ensures Rows([write]) == {write.row}
  {
    var w := [write];
    assert w[..|w| - 1] == [];
    assert write in w;
  }

  lemma WriteReaches(s: Db, id: nat, write: Write, stamp: nat)
    requires CanWrite(s, id, write.row, stamp)
    ensures Reaches(s, WriteSteps(id, write, stamp), Wrote(s, id, write, stamp))
  {
    var s' := Apply(s, Buffer(id, write));
    OneBuffered(s, id, write, stamp);
    FlushOne(s.store, write, stamp);
    assert s'.live - {id} == s.live - {id};
    ReachesOne(s, Buffer(id, write));
    CommitReaches(s', id, stamp);
    ReachesOn(s, [Buffer(id, write)], s', CommitSteps(id, stamp), Wrote(s, id, write, stamp));
  }

  /** Versions 1 and 8 of the row, and nothing else. */
  ghost predicate OneAndEight(s: Store, row: RowKey, a: Bytes, b: Bytes) {
    && VersionKey(row, 1) in s && s[VersionKey(row, 1)] == a
    && VersionKey(row, 8) in s && s[VersionKey(row, 8)] == b
    && forall t: nat :: VersionKey(row, t) in s ==> t == 1 || t == 8
  }

  /** The snapshot 6 reads `a`; a scan marks that version, and its deletion leaves nothing. */
  ghost predicate LosesSix(s: Db, row: RowKey, a: Bytes) {
    && s.gc.Running? && Read(s.store, row, 6) == Some(a) && Overruns(s, row.table, row, 6)
    && var s' := Apply(s, Scan(row.table));
       Enabled(s', Delete(VersionKey(row, 1))) && Read(Apply(s', Delete(VersionKey(row, 1))).store, row, 6) == None
  }

  lemma ScanLosesSix(s: Db, row: RowKey, a: Bytes, b: Bytes)
    requires s.gc.Running? && s.gc.horizon >= 8 && OneAndEight(s.store, row, a, b)
    ensures LosesSix(s, row, a)
  {
    NewestIs(s.store, row, 6, 1);
    NewestIs(s.store, row, s.gc.horizon, 8);
    assert Newest(s.store - {VersionKey(row, 1)}, row, 6) == None;
  }

  // ---------------------------------------------------------------- a horizon from an empty registry

  /** A horizon is taken while nothing is open; then 6 and 7 begin and 7 commits at 8. */
  function EmptyRegistrySteps(row: RowKey, b: Bytes): seq<Step> {
    [ComputeHorizon] + BeginSteps(6) + BeginSteps(7) + WriteSteps(7, Write(row, b), 8)
  }

  function EmptyRegistryState(row: RowKey, a: Bytes, b: Bytes): Db {
    var s := Begun(Begun(Start(row, a).(gc := Running(U64_MAX, {})), 6), 7);
    Wrote(s, 7, Write(row, b), 8)
  }

  lemma EmptyRegistryReached(row: RowKey, a: Bytes, b: Bytes)
    ensures Reaches(Start(row, a), EmptyRegistrySteps(row, b), EmptyRegistryState(row, a, b))
  {
    var s0, w := Start(row, a), Write(row, b);
    var s1 := Apply(s0, ComputeHorizon);
    ReachesOne(s0, ComputeHorizon);
    BeginReaches(s1, 6);
    var s2 := Begun(s1, 6);
    BeginReaches(s2, 7);
    var s3 := Begun(s2, 7);
    WriteReaches(s3, 7, w, 8);
    ReachesOn(s0, [ComputeHorizon], s1, BeginSteps(6), s2);
    ReachesOn(s0, [ComputeHorizon] + BeginSteps(6), s2, BeginSteps(7), s3);
    ReachesOn(s0, [ComputeHorizon] + BeginSteps(6) + BeginSteps(7), s3, WriteSteps(7, w, 8), Wrote(s3, 7, w, 8));
  }

  lemma EmptyRegistryLosesRead(row: RowKey, a: Bytes, b: Bytes)
    ensures var s := EmptyRegistryState(row, a, b);
            && Fresh(Start(row, a), 5) && Reaches(Start(row, a), EmptyRegistrySteps(row, b), s)
            && 6 in s.live && TxRead(s, 6, row) == Some(a) && LosesSix(s, row, a)
  {
    EmptyRegistryReached(row, a, b);
    ScanLosesSix(EmptyRegistryState(row, a, b), row, a, b);
  }

  // ---------------------------------------------------------------- a begin that is not registered yet

  /** 6 has ticked and is not registered; 7 begins and commits at 8; 9 begins; the horizon is 9. */
  function UnregisteredSteps(row: RowKey, b: Bytes): seq<Step> {
    [BeginTick(6)] + BeginSteps(7) + WriteSteps(7, Write(row, b), 8) + BeginSteps(9) + [ComputeHorizon]
  }

  function UnregisteredState(row: RowKey, a: Bytes, b: Bytes): Db {
    var s := Begun(Start(row, a).(clock := 6, pending := {6}), 7);
    Begun(Wrote(s, 7, Write(row, b), 8), 9).(active := {9}, gc := Running(9, {}))
  }

  lemma UnregisteredCommits(row: RowKey, a: Bytes, b: Bytes)
    ensures var s := Begun(Start(row, a).(clock := 6, pending := {6}), 7);
            Reaches(Start(row, a), [BeginTick(6)] + BeginSteps(7) + WriteSteps(7, Write(row, b), 8),
                    Wrote(s, 7, Write(row, b), 8))
  {
    var s0, w := Start(row, a), Write(row, b);
    var s1 := Apply(s0, BeginTick(6));
    assert s1 == s0.(clock := 6, pending := {6});
    ReachesOne(s0, BeginTick(6));
    var s2 := Begun(s1, 7);
    BeginReaches(s1, 7);
    WriteReaches(s2, 7, w, 8);
    ReachesOn(s0, [BeginTick(6)], s1, BeginSteps(7), s2);
    ReachesOn(s0, [BeginTick(6)] + BeginSteps(7), s2, WriteSteps(7, w, 8), Wrote(s2, 7, w, 8));
  }

  lemma HorizonAtNine(s: Db)
    requires s.clock == 8 && s.active == {} && 9 !in s.pending
    ensures Reaches(s, BeginSteps(9) + [ComputeHorizon], Begun(s, 9).(active := {9}, gc := Running(9, {})))
  {
    var s' := Begun(s, 9);
    BeginReaches(s, 9);
    assert s'.active == {9} && Horizon({9}) == 9;
    ReachesOne(s', ComputeHorizon);
    ReachesOn(s, BeginSteps(9), s', [ComputeHorizon], Apply(s', ComputeHorizon));
  }

  lemma UnregisteredReached(row: RowKey, a: Bytes, b: Bytes)
    ensures Reaches(Start(row, a), UnregisteredSteps(row, b), UnregisteredState(row, a, b))
  {
    var s0, w := Start(row, a), Write(row, b);
    var s := Wrote(Begun(s0.(clock := 6, pending := {6}), 7), 7, w, 8);
    var first, last := [BeginTick(6)] + BeginSteps(7) + WriteSteps(7, w, 8), BeginSteps(9) + [ComputeHorizon];
    UnregisteredCommits(row, a, b);
    HorizonAtNine(s);
    ReachesOn(s0, first, s, last, UnregisteredState(row, a, b));
    assert first + last == UnregisteredSteps(row, b);
  }

  lemma UnregisteredBeginLosesRead(row: RowKey, a: Bytes, b: Bytes)
    ensures var s := UnregisteredState(row, a, b);
            && Fresh(Start(row, a), 5) && Reaches(Start(row, a), UnregisteredSteps(row, b), s)
            && s.active == {9} && s.gc == Running(9, {}) && 6 in s.pending && LosesSix(s, row, a)
  {
    UnregisteredReached(row, a, b);
    ScanLosesSix(UnregisteredState(row, a, b), row, a, b);
  }

  // ---------------------------------------------------------------- a begin inside a commit

  /** 7 begins and its commit ticks 8; before it writes, 9 begins. */
  function InsideCommitSteps(row: RowKey, b: Bytes): seq<Step> {
    BeginSteps(7) + [Buffer(7, Write(row, b))] + StampSteps(7, 8) + BeginSteps(9)
  }

  function InsideCommitState(row: RowKey, a: Bytes, b: Bytes): Db {
    var s := Start(row, a).(clock := 7, active := {7}, live := map[7 := [Write(row, b)]]);
    Begun(AboutToWrite(s, 7, 8), 9)
  }

  lemma InsideCommitReached(row: RowKey, a: Bytes, b: Bytes)
    ensures Reaches(Start(row, a), InsideCommitSteps(row, b), InsideCommitState(row, a, b))
  {
    var s0, w := Start(row, a), Write(row, b);
    var s1 := Begun(s0, 7);
    BeginReaches(s0, 7);
    var s2 := Apply(s1, Buffer(7, w));
    OneBuffered(s1, 7, w, 8);
    ReachesOne(s1, Buffer(7, w));
    assert s2 == s0.(clock := 7, active := {7}, live := map[7 := [w]]);
    var s3 := AboutToWrite(s2, 7, 8);
    StampReaches(s2, 7, 8);
    BeginReaches(s3, 9);
    ReachesOn(s0, BeginSteps(7), s1, [Buffer(7, w)], s2);
    ReachesOn(s0, BeginSteps(7) + [Buffer(7, w)], s2, StampSteps(7, 8), s3);
    ReachesOn(s0, BeginSteps(7) + [Buffer(7, w)] + StampSteps(7, 8), s3, BeginSteps(9), Begun(s3, 9));
  }

  /** The write arrives under the open snapshot 9, and 9 may then overwrite the row it read before
      the write without being refused. */
  lemma BeginInsideCommitChangesRead(row: RowKey, a: Bytes, b: Bytes, c: Bytes)
    ensures var s := InsideCommitState(row, a, b);
            && Fresh(Start(row, a), 5) && Reaches(Start(row, a), InsideCommitSteps(row, b), s)
            && 9 in s.live && TxRead(s, 9, row) == Some(a)
            && Enabled(s, CommitWrite) && TxRead(Apply(s, CommitWrite), 9, row) == Some(b)
            && !Loses(Apply(Apply(s, CommitWrite), Buffer(9, Write(row, c))), 9)
  {
    var s := InsideCommitState(row, a, b);
    InsideCommitReached(row, a, b);
    NewestIs(s.store, row, 9, 1);
    FlushOne(s.store, Write(row, b), 8);
    NoConflictAtNine(Apply(s, CommitWrite), row, a, b, c);
  }

  lemma NoConflictAtNine(s: Db, row: RowKey, a: Bytes, b: Bytes, c: Bytes)
    requires 9 in s.live && s.live[9] == [] && OneAndEight(s.store, row, a, b)
    ensures TxRead(s, 9, row) == Some(b)
    ensures !Loses(Apply(s, Buffer(9, Write(row, c))), 9)
  {
    NewestIs(s.store, row, 9, 8);
    NewestIs(s.store, row, U64_MAX, 8);
    OnlyWriteFits(Apply(s, Buffer(9, Write(row, c))), 9, Write(row, c));
  }

  lemma OnlyWriteFits(s: Db, id: nat, write: Write)
    requires id in s.live && s.live[id] == Buffered([], write)
    requires Newest(s.store, write.row, U64_MAX).Some? && Newest(s.store, write.row, U64_MAX).value <= id
    ensures !Loses(s, id)
  {
    assert Buffered([], write) == [write];
  }
}
