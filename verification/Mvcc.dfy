/** The transaction manager and the garbage collector as one state machine.

    A begin is a tick of the clock and then the registration of its snapshot. A commit is a
    conflict check, a tick, an atomic write and the removal of its snapshot, one commit at a
    time. A collection computes its horizon, scans tables and deletes versions one by one. All
    of these steps interleave freely. */
module Mvcc {
  import opened Base
  import opened Versions

  /** What a successful commit leaves behind in the history of a run. */
  datatype Commit = Commit(snapshot: nat, stamp: nat, rows: set<RowKey>)

  datatype Collector = Idle | Running(horizon: nat, doomed: set<VersionKey>)

  /** How far the commit that holds the commit lock has got. */
  datatype Lock =
    | Free
    | Checked(id: nat, writes: seq<Write>)
    | Stamped(id: nat, writes: seq<Write>, stamp: nat)
    | Written(id: nat)

  datatype Db = Db(
    store: Store,
    clock: nat,
    pending: set<nat>,          // snapshots that have ticked and are not registered yet
    active: set<nat>,           // the registry the collector looks at
    live: map<nat, seq<Write>>, // buffered writes of each open transaction, by snapshot id
    lock: Lock,
    history: seq<Commit>,
    gc: Collector)

  datatype Step =
    | Tick(stamp: nat)
    | BeginTick(stamp: nat)
    | Register(id: nat)
    | Buffer(id: nat, write: Write)
    | CommitCheck(id: nat)
    | CommitTick(stamp: nat)
    | CommitWrite
    | CommitEnd
    | Rollback(id: nat)
    | ComputeHorizon
    | Scan(table: nat)
    | Delete(version: VersionKey)

  /** `Transaction::write`: at most one buffered write per row, the latest one last. */
  function Buffered(writes: seq<Write>, w: Write): (r: seq<Write>)
    ensures OwnWrite(r, w.row) == Some(w.value)
    ensures Rows(r) == Rows(writes) + {w.row}
  {
    assert Rows(Without(writes, w.row) + [w]) == Rows(writes) + {w.row};
    Without(writes, w.row) + [w]
  }

  function Without(writes: seq<Write>, row: RowKey): (r: seq<Write>)
    ensures forall w :: w in r <==> w in writes && w.row != row
    ensures |r| <= |writes|
  {
    if |writes| == 0 then []
    else
      assert writes == writes[..|writes| - 1] + [writes[|writes| - 1]];
      var rest := Without(writes[..|writes| - 1], row);
      if writes[|writes| - 1].row == row then rest else rest + [writes[|writes| - 1]]
  }

  /** The oldest active snapshot, or the largest stamp when there is none. */
  function Horizon(active: set<nat>): (h: nat)
    ensures active == {} ==> h == U64_MAX
    ensures active != {} ==> h in active && forall id :: id in active ==> h <= id
  {
    if active == {} then U64_MAX
    else
      assert exists h :: IsLeast(active, h) by { var h := Least(active); }
      var h :| IsLeast(active, h);
      h
  }

  predicate IsLeast(active: set<nat>, h: nat) {
    h in active && forall id :: id in active ==> h <= id
  }

  lemma {:induction false} Least(active: set<nat>) returns (h: nat)
    requires active != {}
    ensures IsLeast(active, h)
  {
    var x :| x in active;
    var rest := active - {x};
    assert active == rest + {x};
    if rest == {} {
      h := x;
    } else {
      var g := Least(rest);
      h := if g < x then g else x;
    }
  }

  predicate Enabled(s: Db, step: Step) {
    match step
    case Tick(stamp) => s.clock < stamp <= U64_MAX
    case BeginTick(stamp) => s.clock < stamp <= U64_MAX
    case Register(id) => id in s.pending
    case Buffer(id, _) => id in s.live
    case CommitCheck(id) => id in s.live && s.lock.Free?
    case CommitTick(stamp) => s.lock.Checked? && s.clock < stamp <= U64_MAX
    case CommitWrite => s.lock.Stamped?
    case CommitEnd => s.lock.Written?
    case Rollback(id) => id in s.live
    case ComputeHorizon => true
    case Scan(_) => s.gc.Running?
    case Delete(version) => s.gc.Running? && version in s.gc.doomed
  }

  predicate Loses(s: Db, id: nat)
    requires id in s.live
  {
    Conflicts(s.store, s.live[id], id, U64_MAX)
  }

  function Apply(s: Db, step: Step): Db
    requires Enabled(s, step)
  {
    match step
    case Tick(stamp) => s.(clock := stamp)
    case BeginTick(stamp) => s.(clock := stamp, pending := s.pending + {stamp})
    case Register(id) => s.(pending := s.pending - {id}, active := s.active + {id}, live := s.live[id := []])
    case Buffer(id, write) => s.(live := s.live[id := Buffered(s.live[id], write)])
    case CommitCheck(id) =>
      if Loses(s, id) then s.(live := s.live - {id}, active := s.active - {id})
      else s.(live := s.live - {id}, lock := Checked(id, s.live[id]))
    case CommitTick(stamp) => s.(clock := stamp, lock := Stamped(s.lock.id, s.lock.writes, stamp))
    case CommitWrite =>
      s.(store := Flush(s.store, s.lock.writes, s.lock.stamp), lock := Written(s.lock.id),
         history := s.history + [Commit(s.lock.id, s.lock.stamp, Rows(s.lock.writes))])
    case CommitEnd => s.(active := s.active - {s.lock.id}, lock := Free)
    case Rollback(id) => s.(live := s.live - {id}, active := s.active - {id})
    case ComputeHorizon => s.(gc := Running(Horizon(s.active), {}))
    case Scan(table) => s.(gc := s.gc.(doomed := s.gc.doomed + Garbage(s.store, {table}, s.gc.horizon)))
    case Delete(version) => s.(store := s.store - {version}, gc := s.gc.(doomed := s.gc.doomed - {version}))
  }

  /** What `read` returns to the open transaction `id`. */
  function TxRead(s: Db, id: nat, row: RowKey): Option<Bytes>
    requires id in s.live
  {
    if OwnWrite(s.live[id], row).Some? then OwnWrite(s.live[id], row)
    else Read(s.store, row, id)
  }

  /** A snapshot that is taken and may still be read at: open, or on its way to be registered. */
  predicate Reader(s: Db, id: nat) {
    id in s.pending || id in s.live
  }

  // ---------------------------------------------------------------- invariant

  ghost predicate Fresh(s: Db, base: nat) {
    && s.history == [] && s.pending == {} && s.active == {} && s.live == map[]
    && s.lock.Free? && s.gc.Idle? && s.clock == base <= U64_MAX && Below(s.store, base)
  }

  function Holder(lock: Lock): set<nat> {
    if lock.Free? then {} else {lock.id}
  }

  /** The registry holds exactly the open transactions and the one that is committing. */
  ghost predicate Registered(s: Db) {
    && s.active == s.live.Keys + Holder(s.lock) && s.live.Keys !! Holder(s.lock) && s.pending !! s.active
  }

  ghost predicate ClockCovers(s: Db, base: nat) {
    && base <= s.clock <= U64_MAX
    && Below(s.store, s.clock)
    && (forall id :: id in s.pending || id in s.active ==> base < id <= s.clock)
    && (forall c :: c in s.history ==> base < c.stamp <= s.clock && c.snapshot < c.stamp)
  }

  /** Each committed row still has a version at least as new as that commit. */
  ghost predicate CommitsVisible(s: Db) {
    forall c, row :: c in s.history && row in c.rows ==>
      Newest(s.store, row, U64_MAX).Some? && Newest(s.store, row, U64_MAX).value >= c.stamp
  }

  ghost predicate VersionsCommitted(s: Db, base: nat) {
    forall vk :: vk in s.store && vk.stamp > base ==>
      exists c :: c in s.history && c.stamp == vk.stamp && vk.row in c.rows
  }

  /** A newer version of the same row, at or below the horizon, that no one is about to delete. */
  ghost predicate OutlivedBy(s: Db, vk: VersionKey, t: nat)
    requires s.gc.Running?
  {
    vk.stamp < t <= s.gc.horizon && VersionKey(vk.row, t) in s.store && VersionKey(vk.row, t) !in s.gc.doomed
  }

  ghost predicate CollectorSafe(s: Db) {
    s.gc.Running? ==>
      forall vk :: vk in s.gc.doomed ==> vk in s.store && exists t: nat :: OutlivedBy(s, vk, t)
  }

  /** Two commits that wrote a common row have disjoint (snapshot, commit] intervals. */
  ghost predicate NoOverlap(s: Db) {
    forall p, q :: 0 <= p < q < |s.history| && s.history[p].rows * s.history[q].rows != {} ==>
      s.history[p].stamp <= s.history[q].snapshot
  }

  /** What the check found still holds while the lock is held, and the stamp of the commit is
      above everything stored. */
  ghost predicate LockHolds(s: Db) {
    && (s.lock.Checked? || s.lock.Stamped? ==>
          forall c :: c in s.history && c.rows * Rows(s.lock.writes) != {} ==> c.stamp <= s.lock.id)
    && (s.lock.Stamped? ==>
          && s.lock.id < s.lock.stamp <= s.clock
          && (forall vk :: vk in s.store ==> vk.stamp < s.lock.stamp)
          && (forall c :: c in s.history ==> c.stamp < s.lock.stamp))
  }

  ghost predicate Inv(s: Db, base: nat) {
    && Registered(s) && ClockCovers(s, base) && CommitsVisible(s) && VersionsCommitted(s, base)
    && CollectorSafe(s) && NoOverlap(s) && LockHolds(s)
  }

  // ---------------------------------------------------------------- which steps change a read

  lemma DeletingChangesReadIff(s: Db, vk: VersionKey, row: RowKey, at: nat)
    requires vk in s.store
    ensures Newest(s.store - {vk}, row, at) != Newest(s.store, row, at) <==>
              row == vk.row && Newest(s.store, row, at) == Some(vk.stamp)
  {
    var s' := s.store - {vk};
    var n := Newest(s.store, row, at);
    if row == vk.row && n == Some(vk.stamp) {
      assert VersionKey(row, vk.stamp) !in s';
    } else if n.Some? {
      assert VersionKey(row, n.value) in s';
      assert forall u: nat :: n.value < u <= at ==> VersionKey(row, u) !in s';
    } else {
      SameNewest(s.store, s', row, at);
    }
  }

  lemma WritingChangesReadIff(s: Db, row: RowKey, at: nat)
    requires s.lock.Stamped? && LockHolds(s)
    ensures Newest(Flush(s.store, s.lock.writes, s.lock.stamp), row, at) != Newest(s.store, row, at) <==>
              row in Rows(s.lock.writes) && s.lock.stamp <= at
  {
    FlushMovesReadIff(s.store, s.lock.writes, s.lock.stamp, row, at);
  }

  /** The two ways in which a step can change what is read at a stamp: a commit writes the row
      although its stamp is not above, or the version read is deleted. */
  ghost predicate Disturbs(s: Db, step: Step, row: RowKey, at: nat)
    requires Enabled(s, step)
  {
    || (step.CommitWrite? && row in Rows(s.lock.writes) && s.lock.stamp <= at)
    || (step.Delete? && step.version.row == row && Newest(s.store, row, at) == Some(step.version.stamp))
  }

  /** Exactly these change it, whatever is read, at any stamp and in every reachable state. */
  lemma StepChangesReadIff(s: Db, base: nat, step: Step, row: RowKey, at: nat)
    requires Inv(s, base) && Enabled(s, step)
    ensures Newest(Apply(s, step).store, row, at) != Newest(s.store, row, at) <==> Disturbs(s, step, row, at)
    ensures !Disturbs(s, step, row, at) ==> Read(Apply(s, step).store, row, at) == Read(s.store, row, at)
  {
    match step
    case CommitWrite =>
      WritingChangesReadIff(s, row, at);
      WritingKeepsValues(s, row, at);
    case Delete(version) => DeletingChangesReadIff(s, version, row, at);
    case _ => OthersKeepStore(s, step);
  }

  lemma OthersKeepStore(s: Db, step: Step)
    requires Enabled(s, step) && !step.CommitWrite? && !step.Delete?
    ensures Apply(s, step).store == s.store
  {
  }

  lemma WritingKeepsValues(s: Db, row: RowKey, at: nat)
    requires s.lock.Stamped? && LockHolds(s)
    ensures var s' := Flush(s.store, s.lock.writes, s.lock.stamp);
            Newest(s', row, at) == Newest(s.store, row, at) ==> Read(s', row, at) == Read(s.store, row, at)
  {
  }

  /** The read at `at` is of a version that is marked for deletion. */
  ghost predicate Dooms(s: Db, row: RowKey, at: nat) {
    s.gc.Running? && Newest(s.store, row, at).Some? && VersionKey(row, Newest(s.store, row, at).value) in s.gc.doomed
  }

  ghost predicate Spared(s: Db, at: nat) {
    forall row :: !Dooms(s, row, at)
  }

  /** The horizon lies above the stamp with a newer version of the row in between. */
  predicate Overruns(s: Db, table: nat, row: RowKey, at: nat) {
    && s.gc.Running? && row.table == table && at < s.gc.horizon
    && Newest(s.store, row, at).Some? && Newest(s.store, row, s.gc.horizon) != Newest(s.store, row, at)
  }

  /** A scan marks the version that is read at a stamp exactly when its horizon overruns it. */
  lemma ScanDoomsIff(s: Db, table: nat, row: RowKey, at: nat)
    requires Enabled(s, Scan(table))
    ensures Dooms(Apply(s, Scan(table)), row, at) <==> Dooms(s, row, at) || Overruns(s, table, row, at)
  {
    var n, k := Newest(s.store, row, at), Newest(s.store, row, s.gc.horizon);
    if n.Some? && at < s.gc.horizon {
      assert k.Some? && n.value <= k.value;
    }
  }

  /** A marked version can be deleted right away, and the read is lost. */
  lemma DoomedCanBeLost(s: Db, base: nat, row: RowKey, at: nat)
    requires Inv(s, base) && Dooms(s, row, at)
    ensures var step := Delete(VersionKey(row, Newest(s.store, row, at).value));
            Enabled(s, step) && Newest(Apply(s, step).store, row, at) != Newest(s.store, row, at)
  {
    StepChangesReadIff(s, base, Delete(VersionKey(row, Newest(s.store, row, at).value)), row, at);
  }

  /** Reads at or above the horizon are spared, and so are reads at or above the clock. */
  lemma HighReadsSpared(s: Db, base: nat, at: nat)
    requires Inv(s, base) && (s.clock <= at || (s.gc.Running? && s.gc.horizon <= at))
    ensures Spared(s, at)
  {
    if s.gc.Running? {
      forall vk | vk in s.gc.doomed
        ensures Newest(s.store, vk.row, at) != Some(vk.stamp)
      {
        var t: nat :| OutlivedBy(s, vk, t);
        assert VersionKey(vk.row, t) in s.store;
      }
    }
  }

  /** What is spared stays spared by every step but a scan that overruns it. */
  lemma StepKeepsSpared(s: Db, base: nat, step: Step, at: nat)
    requires Inv(s, base) && Enabled(s, step) && Spared(s, at)
    requires step.Scan? ==> forall row :: !Overruns(s, step.table, row, at)
    ensures Spared(Apply(s, step), at)
  {
    var s' := Apply(s, step);
    forall row
      ensures !Dooms(s', row, at)
    {
      assert !Dooms(s, row, at);
      StepChangesReadIff(s, base, step, row, at);
      if step.Scan? {
        ScanDoomsIff(s, step.table, row, at);
      } else if step.CommitWrite? && Disturbs(s, step, row, at) {
        FreshIsSpared(s, base, row, at);
      }
    }
  }

  lemma FreshIsSpared(s: Db, base: nat, row: RowKey, at: nat)
    requires Inv(s, base) && s.lock.Stamped? && row in Rows(s.lock.writes) && s.lock.stamp <= at
    ensures Newest(Apply(s, CommitWrite).store, row, at) == Some(s.lock.stamp)
    ensures !Dooms(Apply(s, CommitWrite), row, at)
  {
    var s' := Apply(s, CommitWrite);
    assert VersionKey(row, s.lock.stamp) in s'.store && VersionKey(row, s.lock.stamp) !in s.store;
    assert forall t: nat :: s.lock.stamp < t ==> VersionKey(row, t) !in s'.store;
  }

  // ---------------------------------------------------------------- one step keeps the invariant

  lemma CommitDecision(s: Db, base: nat, id: nat)
    requires Inv(s, base) && id in s.live
    ensures Loses(s, id) <==>
              exists c, row :: c in s.history && row in c.rows && row in Rows(s.live[id]) && c.stamp > id
  {
    if Loses(s, id) {
      var w :| w in s.live[id] && Newest(s.store, w.row, U64_MAX).Some? && Newest(s.store, w.row, U64_MAX).value > id;
      var vk := VersionKey(w.row, Newest(s.store, w.row, U64_MAX).value);
      assert vk in s.store && vk.stamp > base;
      assert w.row in Rows(s.live[id]);
    }
    if c, row :| c in s.history && row in c.rows && row in Rows(s.live[id]) && c.stamp > id {
      var w :| w in s.live[id] && w.row == row;
    }
  }

  lemma StepKeepsRegistry(s: Db, base: nat, step: Step)
    requires Registered(s) && ClockCovers(s, base) && Enabled(s, step)
    ensures Registered(Apply(s, step))
  {
  }

  lemma StepKeepsClock(s: Db, base: nat, step: Step)
    requires Inv(s, base) && Enabled(s, step)
    ensures ClockCovers(Apply(s, step), base)
  {
  }

  lemma NewestSurvives(s: Db, base: nat, step: Step, row: RowKey)
    requires Inv(s, base) && Enabled(s, step)
    ensures Newest(s.store, row, U64_MAX).Some? ==>
              Newest(Apply(s, step).store, row, U64_MAX).Some? &&
              Newest(Apply(s, step).store, row, U64_MAX).value >= Newest(s.store, row, U64_MAX).value
  {
    StepChangesReadIff(s, base, step, row, U64_MAX);
    HighReadsSpared(s, base, U64_MAX);
    assert !Dooms(s, row, U64_MAX);
    if step.CommitWrite? && Disturbs(s, step, row, U64_MAX) {
      FreshIsSpared(s, base, row, U64_MAX);
    }
  }

  lemma StepKeepsCommits(s: Db, base: nat, step: Step)
    requires Inv(s, base) && Enabled(s, step)
    ensures CommitsVisible(Apply(s, step))
  {
    var s' := Apply(s, step);
    forall c, row | c in s'.history && row in c.rows
      ensures Newest(s'.store, row, U64_MAX).Some? && Newest(s'.store, row, U64_MAX).value >= c.stamp
    {
      if c in s.history {
        NewestSurvives(s, base, step, row);
      } else {
        assert VersionKey(row, s.lock.stamp) in s'.store;
      }
    }
  }

  lemma StepKeepsVersions(s: Db, base: nat, step: Step)
    requires Inv(s, base) && Enabled(s, step)
    ensures VersionsCommitted(Apply(s, step), base)
  {
    var s' := Apply(s, step);
    forall vk | vk in s'.store && vk.stamp > base
      ensures exists c :: c in s'.history && c.stamp == vk.stamp && vk.row in c.rows
    {
      if vk in s.store {
        var c :| c in s.history && c.stamp == vk.stamp && vk.row in c.rows;
        assert c in s'.history;
      } else {
        var c := s'.history[|s'.history| - 1];
        assert c in s'.history && c.stamp == vk.stamp && vk.row in c.rows;
      }
    }
  }

  lemma StillOutlived(s: Db, base: nat, step: Step, vk: VersionKey, t: nat)
    requires Inv(s, base) && Enabled(s, step) && s.gc.Running? && OutlivedBy(s, vk, t)
    requires !step.Scan? && !step.ComputeHorizon?
    ensures OutlivedBy(Apply(s, step), vk, t)
  {
    assert VersionKey(vk.row, t) in Apply(s, step).store;
  }

  /** What a scan finds is outlived by the newest version at or below the horizon, and what
      earlier scans found still is. */
  lemma ScanOutlived(s: Db, base: nat, table: nat, vk: VersionKey)
    requires Inv(s, base) && Enabled(s, Scan(table)) && vk in Apply(s, Scan(table)).gc.doomed
    ensures exists t: nat :: OutlivedBy(Apply(s, Scan(table)), vk, t)
  {
    var s' := Apply(s, Scan(table));
    if vk in s.gc.doomed {
      var t: nat :| OutlivedBy(s, vk, t);
      assert vk.stamp < t;
    }
    var k := Newest(s.store, vk.row, s.gc.horizon);
    assert k.Some? && vk.stamp < k.value;
    assert VersionKey(vk.row, k.value) !in s.gc.doomed;
    assert OutlivedBy(s', vk, k.value);
  }

  lemma StepKeepsCollector(s: Db, base: nat, step: Step)
    requires Inv(s, base) && Enabled(s, step)
    ensures CollectorSafe(Apply(s, step))
  {
    var s' := Apply(s, step);
    if s'.gc.Running? {
      forall vk | vk in s'.gc.doomed
        ensures vk in s'.store && exists t: nat :: OutlivedBy(s', vk, t)
      {
        if step.Scan? {
          ScanOutlived(s, base, step.table, vk);
        } else {
          var t: nat :| OutlivedBy(s, vk, t);
          StillOutlived(s, base, step, vk, t);
        }
      }
    }
  }

  lemma StepKeepsNoOverlap(s: Db, base: nat, step: Step)
    requires Inv(s, base) && Enabled(s, step)
    ensures NoOverlap(Apply(s, step))
  {
    var s' := Apply(s, step);
    if |s'.history| > |s.history| {
      var q := |s.history|;
      forall p | 0 <= p < q && s'.history[p].rows * s'.history[q].rows != {}
        ensures s'.history[p].stamp <= s'.history[q].snapshot
      {
        assert s.history[p] in s.history;
      }
    }
  }

  lemma StepKeepsLock(s: Db, base: nat, step: Step)
    requires Inv(s, base) && Enabled(s, step)
    ensures LockHolds(Apply(s, step))
  {
    if step.CommitCheck? {
      CommitDecision(s, base, step.id);
      if !Loses(s, step.id) {
        forall c | c in s.history && c.rows * Rows(s.live[step.id]) != {}
          ensures c.stamp <= step.id
        {
          var row :| row in c.rows * Rows(s.live[step.id]);
        }
      }
    }
  }

  lemma StepKeepsInv(s: Db, base: nat, step: Step)
    requires Inv(s, base) && Enabled(s, step)
    ensures Inv(Apply(s, step), base)
  {
    StepKeepsRegistry(s, base, step);
    StepKeepsClock(s, base, step);
    StepKeepsCommits(s, base, step);
    StepKeepsVersions(s, base, step);
    StepKeepsCollector(s, base, step);
    StepKeepsNoOverlap(s, base, step);
    StepKeepsLock(s, base, step);
  }

  // ---------------------------------------------------------------- whole runs

  ghost predicate IsRun(trace: seq<Db>, steps: seq<Step>) {
    |trace| == |steps| + 1 &&
    forall i :: 0 <= i < |steps| ==> Enabled(trace[i], steps[i]) && trace[i + 1] == Apply(trace[i], steps[i])
  }

  lemma {:induction false} RunKeepsInv(trace: seq<Db>, steps: seq<Step>, base: nat, n: nat)
    requires IsRun(trace, steps) && Fresh(trace[0], base) && n <= |steps|
    ensures Inv(trace[n], base)
  {
    if n > 0 {
      RunKeepsInv(trace, steps, base, n - 1);
      StepKeepsInv(trace[n - 1], base, steps[n - 1]);
    }
  }

  /** No commit is about to write at or below the stamp. */
  predicate Settled(s: Db, at: nat) {
    at <= s.clock && (s.lock.Stamped? ==> at < s.lock.stamp)
  }

  lemma {:induction false} StaysSettled(trace: seq<Db>, steps: seq<Step>, i: nat, j: nat, at: nat)
    requires IsRun(trace, steps) && i <= j <= |steps| && Settled(trace[i], at)
    ensures Settled(trace[j], at)
    decreases j
  {
    if i < j {
      StaysSettled(trace, steps, i, j - 1, at);
    }
  }

  /** No scan between two states of the run overran the stamp. */
  ghost predicate NotOverrun(trace: seq<Db>, steps: seq<Step>, i: nat, j: nat, at: nat)
    requires IsRun(trace, steps) && i <= j <= |steps|
  {
    forall k, row :: i <= k < j && steps[k].Scan? ==> !Overruns(trace[k], steps[k].table, row, at)
  }

  /** Once no commit is about to write at or below a stamp and nothing read there is marked, reads
      there never change again as long as no scan overruns them. */
  lemma {:induction false} ReadsStable(
      trace: seq<Db>, steps: seq<Step>, base: nat, i: nat, j: nat, at: nat, row: RowKey)
    requires IsRun(trace, steps) && Fresh(trace[0], base) && i <= j <= |steps|
    requires Settled(trace[i], at) && Spared(trace[i], at) && NotOverrun(trace, steps, i, j, at)
    ensures Spared(trace[j], at)
    ensures Newest(trace[j].store, row, at) == Newest(trace[i].store, row, at)
    ensures Read(trace[j].store, row, at) == Read(trace[i].store, row, at)
    decreases j
  {
    if i < j {
      var s, step := trace[j - 1], steps[j - 1];
      ReadsStable(trace, steps, base, i, j - 1, at, row);
      StaysSettled(trace, steps, i, j - 1, at);
      RunKeepsInv(trace, steps, base, j - 1);
      StepKeepsSpared(s, base, step, at);
      assert !Dooms(s, row, at);
      StepChangesReadIff(s, base, step, row, at);
    }
  }

  /** Snapshot isolation. However commits, rollbacks and collections interleave, a transaction
      whose begin did not tick between the tick and the write of a commit, and that no scan
      overruns, reads its own writes and otherwise the newest version that existed when it
      began. */
  lemma SnapshotIsolation(trace: seq<Db>, steps: seq<Step>, base: nat, i: nat, j: nat, row: RowKey)
    requires IsRun(trace, steps) && Fresh(trace[0], base)
    requires i < j <= |steps| && steps[i].BeginTick? && steps[i].stamp in trace[j].live
    requires !trace[i].lock.Stamped? && NotOverrun(trace, steps, i + 1, j, steps[i].stamp)
    ensures var id := steps[i].stamp;
            TxRead(trace[j], id, row) ==
              if row in Rows(trace[j].live[id]) then OwnWrite(trace[j].live[id], row)
              else Read(trace[i].store, row, U64_MAX)
  {
    var id := steps[i].stamp;
    RunKeepsInv(trace, steps, base, i);
    RunKeepsInv(trace, steps, base, i + 1);
    HighReadsSpared(trace[i + 1], base, id);
    ReadsStable(trace, steps, base, i + 1, j, id, row);
    AllVisible(trace[i].store, row, trace[i].clock, id);
  }

  lemma AllVisible(s: Store, row: RowKey, clock: nat, at: nat)
    requires Below(s, clock) && clock <= at <= U64_MAX
    ensures Newest(s, row, at) == Newest(s, row, U64_MAX)
  {
    assert forall t: nat :: VersionKey(row, t) in s ==> t <= at;
  }

  /** A collection keeps every read at or above its horizon, at any stamp up to the clock at its
      start, while begins, commits and rollbacks run in between. */
  lemma PassKeepsReads(trace: seq<Db>, steps: seq<Step>, base: nat, i: nat, j: nat, at: nat, row: RowKey)
    requires IsRun(trace, steps) && Fresh(trace[0], base) && i < j <= |steps|
    requires steps[i].ComputeHorizon? && forall k :: i < k < j ==> !steps[k].ComputeHorizon?
    requires Horizon(trace[i].active) <= at && Settled(trace[i], at)
    ensures Read(trace[j].store, row, at) == Read(trace[i].store, row, at)
  {
    var h := Horizon(trace[i].active);
    forall k | i < k <= j
      ensures trace[k].gc.Running? && trace[k].gc.horizon == h
    {
      SameHorizon(trace, steps, i, k);
    }
    RunKeepsInv(trace, steps, base, i + 1);
    HighReadsSpared(trace[i + 1], base, at);
    ReadsStable(trace, steps, base, i + 1, j, at, row);
  }

  lemma {:induction false} SameHorizon(trace: seq<Db>, steps: seq<Step>, i: nat, j: nat)
    requires IsRun(trace, steps) && i < j <= |steps|
    requires steps[i].ComputeHorizon? && forall k :: i < k < j ==> !steps[k].ComputeHorizon?
    ensures trace[j].gc.Running? && trace[j].gc.horizon == Horizon(trace[i].active)
    decreases j
  {
    if i + 1 < j {
      SameHorizon(trace, steps, i, j - 1);
    }
  }

  /** First committer wins. A commit is refused exactly when another committed transaction
      wrote one of its rows after its snapshot, whatever collections ran meanwhile. */
  lemma FirstCommitterWins(trace: seq<Db>, steps: seq<Step>, base: nat, n: nat, id: nat)
    requires IsRun(trace, steps) && Fresh(trace[0], base) && n <= |steps| && id in trace[n].live
    ensures Loses(trace[n], id) <==>
              exists c, row :: c in trace[n].history && row in c.rows &&
                row in Rows(trace[n].live[id]) && id < c.stamp
  {
    RunKeepsInv(trace, steps, base, n);
    CommitDecision(trace[n], base, id);
  }

  /** Of two commits that wrote a common row, the later one began after the earlier one
      committed: their (snapshot, commit] intervals never overlap. */
  lemma CommittedIntervalsDisjoint(trace: seq<Db>, steps: seq<Step>, base: nat, n: nat, p: nat, q: nat)
    requires IsRun(trace, steps) && Fresh(trace[0], base) && n <= |steps|
    requires p < q < |trace[n].history|
    requires trace[n].history[p].rows * trace[n].history[q].rows != {}
    ensures trace[n].history[p].stamp <= trace[n].history[q].snapshot < trace[n].history[q].stamp
  {
    RunKeepsInv(trace, steps, base, n);
    assert trace[n].history[q] in trace[n].history;
  }

  /** The newest version of a row only ever gets newer: collection never hides a commit. */
  lemma {:induction false} NewestNeverLost(
      trace: seq<Db>, steps: seq<Step>, base: nat, i: nat, j: nat, row: RowKey)
    requires IsRun(trace, steps) && Fresh(trace[0], base) && i <= j <= |steps|
    requires Newest(trace[i].store, row, U64_MAX).Some?
    ensures Newest(trace[j].store, row, U64_MAX).Some?
    ensures Newest(trace[i].store, row, U64_MAX).value <= Newest(trace[j].store, row, U64_MAX).value
    decreases j
  {
    if i < j {
      NewestNeverLost(trace, steps, base, i, j - 1, row);
      RunKeepsInv(trace, steps, base, j - 1);
      NewestSurvives(trace[j - 1], base, steps[j - 1], row);
    }
  }

  // ---------------------------------------------------------------- horizons that overrun no one

  /** The horizon is a registered snapshot, and no begin below it is still on its way. */
  predicate SafeHorizon(s: Db) {
    s.active != {} && forall id :: id in s.pending ==> Horizon(s.active) <= id
  }

  /** During a pass that took a safe horizon, no reader is ever below it. */
  lemma {:induction false} ReadersStayAbove(
      trace: seq<Db>, steps: seq<Step>, base: nat, i: nat, j: nat, id: nat)
    requires IsRun(trace, steps) && Fresh(trace[0], base) && i <= j <= |steps|
    requires SafeHorizon(trace[i]) && Reader(trace[j], id)
    ensures Horizon(trace[i].active) <= id
    ensures Horizon(trace[i].active) <= trace[j].clock
    decreases j
  {
    RunKeepsInv(trace, steps, base, i);
    ClockGrows(trace, steps, i, j);
    if i < j {
      if Reader(trace[j - 1], id) {
        ReadersStayAbove(trace, steps, base, i, j - 1, id);
      } else {
        NewReader(trace[j - 1], steps[j - 1], id);
        ClockGrows(trace, steps, i, j - 1);
      }
    }
  }

  lemma NewReader(s: Db, step: Step, id: nat)
    requires Enabled(s, step) && Reader(Apply(s, step), id) && !Reader(s, id)
    ensures s.clock < id
  {
  }

  lemma {:induction false} ClockGrows(trace: seq<Db>, steps: seq<Step>, i: nat, j: nat)
    requires IsRun(trace, steps) && i <= j <= |steps|
    ensures trace[i].clock <= trace[j].clock
    decreases j
  {
    if i < j {
      ClockGrows(trace, steps, i, j - 1);
    }
  }

  /** A transaction that is open at the end was a reader ever since its tick. */
  lemma {:induction false} ReaderSinceBegin(trace: seq<Db>, steps: seq<Step>, i: nat, j: nat, id: nat)
    requires IsRun(trace, steps) && i <= j <= |steps| && id <= trace[i].clock && Reader(trace[j], id)
    ensures Reader(trace[i], id)
    decreases j
  {
    if i < j {
      ClockGrows(trace, steps, i, j - 1);
      if !Reader(trace[j - 1], id) {
        NewReader(trace[j - 1], steps[j - 1], id);
      }
      ReaderSinceBegin(trace, steps, i, j - 1, id);
    }
  }

  /** No reader lies below the horizon of the scan. */
  ghost predicate SafeScan(s: Db) {
    s.gc.Running? ==> forall id :: Reader(s, id) ==> s.gc.horizon <= id
  }

  /** A horizon taken from a non-empty registry, while no begin below it was between its tick and
      its registration, makes every scan of its pass safe. */
  lemma SafeHorizonMakesScansSafe(trace: seq<Db>, steps: seq<Step>, base: nat, i: nat, k: nat)
    requires IsRun(trace, steps) && Fresh(trace[0], base) && i < k <= |steps|
    requires steps[i].ComputeHorizon? && forall m :: i < m < k ==> !steps[m].ComputeHorizon?
    requires SafeHorizon(trace[i])
    ensures SafeScan(trace[k])
  {
    SameHorizon(trace, steps, i, k);
    forall id | Reader(trace[k], id)
      ensures trace[k].gc.horizon <= id
    {
      ReadersStayAbove(trace, steps, base, i, k, id);
    }
  }

  lemma SafeScansOverrunNoOne(trace: seq<Db>, steps: seq<Step>, i: nat, j: nat, id: nat)
    requires IsRun(trace, steps) && i <= j <= |steps| && id <= trace[i].clock && Reader(trace[j], id)
    requires forall k :: i <= k < j && steps[k].Scan? ==> SafeScan(trace[k])
    ensures NotOverrun(trace, steps, i, j, id)
  {
    forall k, row | i <= k < j && steps[k].Scan?
      ensures !Overruns(trace[k], steps[k].table, row, id)
    {
      ClockGrows(trace, steps, i, k);
      ReaderSinceBegin(trace, steps, k, j, id);
    }
  }

  /** Snapshot isolation for every transaction, under guards that can be checked when a step is
      taken: begins keep out of the middle of commits, and scans of the way of readers. */
  lemma GuardedSnapshotIsolation(trace: seq<Db>, steps: seq<Step>, base: nat, i: nat, j: nat, row: RowKey)
    requires IsRun(trace, steps) && Fresh(trace[0], base)
    requires forall k :: 0 <= k < |steps| && steps[k].Scan? ==> SafeScan(trace[k])
    requires forall k :: 0 <= k < |steps| && steps[k].BeginTick? ==> !trace[k].lock.Stamped?
    requires i < j <= |steps| && steps[i].BeginTick? && steps[i].stamp in trace[j].live
    ensures var id := steps[i].stamp;
            TxRead(trace[j], id, row) ==
              if row in Rows(trace[j].live[id]) then OwnWrite(trace[j].live[id], row)
              else Read(trace[i].store, row, U64_MAX)
  {
    SafeScansOverrunNoOne(trace, steps, i + 1, j, steps[i].stamp);
    SnapshotIsolation(trace, steps, base, i, j, row);
  }

  // ---------------------------------------------------------------- runs given by their steps

  ghost predicate Reaches(s: Db, steps: seq<Step>, s': Db)
    decreases |steps|
  {
    if steps == [] then s == s'
    else Enabled(s, steps[0]) && Reaches(Apply(s, steps[0]), steps[1..], s')
  }

  lemma {:induction false} ReachesOn(a: Db, p: seq<Step>, b: Db, q: seq<Step>, c: Db)
    requires Reaches(a, p, b) && Reaches(b, q, c)
    ensures Reaches(a, p + q, c)
    decreases |p|
  {
    if p == [] {
      assert p + q == q;
    } else {
      ReachesOn(Apply(a, p[0]), p[1..], b, q, c);
      assert (p + q)[1..] == p[1..] + q;
    }
  }

  lemma ReachesOne(s: Db, step: Step)
    requires Enabled(s, step)
    ensures Reaches(s, [step], Apply(s, step))
  {
    assert Reaches(Apply(s, step), [step][1..], Apply(s, step));
  }

  lemma {:induction false} ReachesIsRun(s: Db, steps: seq<Step>, s': Db) returns (trace: seq<Db>)
    requires Reaches(s, steps, s')
    ensures IsRun(trace, steps) && trace[0] == s && trace[|steps|] == s'
    decreases |steps|
  {
    if steps == [] {
      trace := [s];
    } else {
      var rest := ReachesIsRun(Apply(s, steps[0]), steps[1..], s');
      trace := [s] + rest;
      forall i | 0 <= i < |steps|
        ensures Enabled(trace[i], steps[i]) && trace[i + 1] == Apply(trace[i], steps[i])
      {
        if i > 0 {
          assert steps[i] == steps[1..][i - 1] && trace[i] == rest[i - 1] && trace[i + 1] == rest[i];
        }
      }
    }
  }
}
