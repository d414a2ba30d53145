/** What whole calls of the transaction manager and the collector do, as runs of the machine. */
module Calls {
  import opened Base
  import opened Versions
  import opened Mvcc

  lemma Two(s: Db, x: Step, y: Step, s': Db)
    requires Enabled(s, x) && Enabled(Apply(s, x), y) && Apply(Apply(s, x), y) == s'
    ensures Reaches(s, [x, y], s')
  {
    ReachesOne(s, x);
    ReachesOne(Apply(s, x), y);
    ReachesOn(s, [x], Apply(s, x), [y], s');
    assert [x] + [y] == [x, y];
  }

  // ---------------------------------------------------------------- begin

  function BeginSteps(stamp: nat): seq<Step> {
    [BeginTick(stamp), Register(stamp)]
  }

  function Begun(s: Db, stamp: nat): Db {
    s.(clock := stamp, active := s.active + {stamp}, live := s.live[stamp := []])
  }

  lemma BeginReaches(s: Db, stamp: nat)
    requires s.clock < stamp <= U64_MAX && stamp !in s.pending
    ensures Reaches(s, BeginSteps(stamp), Begun(s, stamp))
  {
    assert s.pending + {stamp} - {stamp} == s.pending;
    Two(s, BeginTick(stamp), Register(stamp), Begun(s, stamp));
  }

  // ---------------------------------------------------------------- commit

  function StampSteps(id: nat, stamp: nat): seq<Step> {
    [CommitCheck(id), CommitTick(stamp)]
  }

  function CommitSteps(id: nat, stamp: nat): seq<Step> {
    StampSteps(id, stamp) + [CommitWrite, CommitEnd]
  }

  /** The commit holds its stamp and has not written. */
  function AboutToWrite(s: Db, id: nat, stamp: nat): Db
    requires id in s.live
  {
    s.(clock := stamp, live := s.live - {id}, lock := Stamped(id, s.live[id], stamp))
  }

  function Committed(s: Db, id: nat, stamp: nat): Db
    requires id in s.live
  {
    s.(store := Flush(s.store, s.live[id], stamp), clock := stamp, active := s.active - {id}, live := s.live - {id},
       history := s.history + [Commit(id, stamp, Rows(s.live[id]))])
  }

  lemma StampReaches(s: Db, id: nat, stamp: nat)
    requires s.lock.Free? && id in s.live && !Loses(s, id) && s.clock < stamp <= U64_MAX
    ensures Reaches(s, StampSteps(id, stamp), AboutToWrite(s, id, stamp))
  {
    Two(s, CommitCheck(id), CommitTick(stamp), AboutToWrite(s, id, stamp));
  }

  lemma CommitReaches(s: Db, id: nat, stamp: nat)
    requires s.lock.Free? && id in s.live && !Loses(s, id) && s.clock < stamp <= U64_MAX
    ensures Reaches(s, CommitSteps(id, stamp), Committed(s, id, stamp))
  {
    var s' := AboutToWrite(s, id, stamp);
    StampReaches(s, id, stamp);
    Two(s', CommitWrite, CommitEnd, Committed(s, id, stamp));
    ReachesOn(s, StampSteps(id, stamp), s', [CommitWrite, CommitEnd], Committed(s, id, stamp));
  }

  // ---------------------------------------------------------------- a pass of the collector

  ghost function Elements(tables: seq<nat>): (r: set<nat>)
    ensures forall t :: t in r <==> t in tables
  {
    if tables == [] then {} else Elements(tables[..|tables| - 1]) + {tables[|tables| - 1]}
  }

  lemma CollectTableByTable(s: Store, done: set<nat>, table: nat, horizon: nat)
    ensures forall bound: nat :: Below(s, bound) ==> Below(Collect(s, done, horizon), bound)
    ensures Collect(Collect(s, done, horizon), {table}, horizon) == Collect(s, done + {table}, horizon)
    ensures |Garbage(s, done + {table}, horizon)| ==
              |Garbage(s, done, horizon)| + |Garbage(Collect(s, done, horizon), {table}, horizon)|
  {
    GarbageSplits(s, done, table, horizon);
  }

  lemma GarbageSplits(s: Store, done: set<nat>, table: nat, horizon: nat)
    ensures Garbage(s, done + {table}, horizon) ==
              Garbage(s, done, horizon) + Garbage(Collect(s, done, horizon), {table}, horizon)
    ensures Garbage(s, done, horizon) !! Garbage(Collect(s, done, horizon), {table}, horizon)
  {
    forall vk
      ensures Obsolete(Collect(s, done, horizon), vk, horizon) <==> Obsolete(s, vk, horizon)
    {
      SameObsolete(s, done, horizon, vk);
    }
  }

  lemma SameObsolete(s: Store, done: set<nat>, horizon: nat, vk: VersionKey)
    ensures Obsolete(Collect(s, done, horizon), vk, horizon) <==> Obsolete(s, vk, horizon)
  {
    var s' := Collect(s, done, horizon);
    var k := Newest(s, vk.row, horizon);
    if k.Some? {
      assert VersionKey(vk.row, k.value) in s';
      assert forall t: nat :: k.value < t <= horizon ==> VersionKey(vk.row, t) !in s';
    } else {
      SameNewest(s, s', vk.row, horizon);
    }
  }

  ghost predicate AllCollecting(steps: seq<Step>) {
    forall i :: 0 <= i < |steps| ==> steps[i].Scan? || steps[i].Delete?
  }

  /** A horizon, then scans and deletions. */
  ghost predicate IsPass(steps: seq<Step>) {
    steps != [] && steps[0].ComputeHorizon? && AllCollecting(steps[1..])
  }

  /** Everything that is marked has been deleted. */
  function Deleted(s: Db): Db
    requires s.gc.Running?
  {
    s.(store := s.store - s.gc.doomed, gc := Running(s.gc.horizon, {}))
  }

  lemma {:induction false} DeletesReach(s: Db) returns (steps: seq<Step>)
    requires s.gc.Running?
    ensures Reaches(s, steps, Deleted(s)) && AllCollecting(steps)
    decreases |s.gc.doomed|
  {
    if s.gc.doomed == {} {
      steps := [];
      assert s.store - {} == s.store;
    } else {
      var vk :| vk in s.gc.doomed;
      var s' := Apply(s, Delete(vk));
      var rest := DeletesReach(s');
      assert s'.store - s'.gc.doomed == s.store - s.gc.doomed;
      steps := [Delete(vk)] + rest;
      assert steps[1..] == rest;
    }
  }

  lemma TableReaches(s: Db, table: nat) returns (steps: seq<Step>)
    requires s.gc.Running? && s.gc.doomed == {}
    ensures Reaches(s, steps, s.(store := Collect(s.store, {table}, s.gc.horizon))) && AllCollecting(steps)
  {
    var s' := Apply(s, Scan(table));
    assert s'.gc.doomed == Garbage(s.store, {table}, s.gc.horizon);
    var rest := DeletesReach(s');
    ReachesOne(s, Scan(table));
    ReachesOn(s, [Scan(table)], s', rest, Deleted(s'));
    steps := [Scan(table)] + rest;
  }

  lemma {:induction false} TablesReach(s: Db, tables: seq<nat>) returns (steps: seq<Step>)
    requires s.gc.Running? && s.gc.doomed == {}
    ensures Reaches(s, steps, s.(store := Collect(s.store, Elements(tables), s.gc.horizon))) && AllCollecting(steps)
    decreases |tables|
  {
    if tables == [] {
      steps := [];
      assert Collect(s.store, {}, s.gc.horizon) == s.store;
    } else {
      var init, last := tables[..|tables| - 1], tables[|tables| - 1];
      var s' := s.(store := Collect(s.store, Elements(init), s.gc.horizon));
      var p := TablesReach(s, init);
      var q := TableReaches(s', last);
      CollectTableByTable(s.store, Elements(init), last, s.gc.horizon);
      steps := p + q;
      ReachesOn(s, p, s', q, s.(store := Collect(s.store, Elements(tables), s.gc.horizon)));
    }
  }

  /** A whole pass with nothing in between. */
  ghost function Passed(s: Db, tables: set<nat>): Db {
    s.(store := Collect(s.store, tables, Horizon(s.active)), gc := Running(Horizon(s.active), {}))
  }

  lemma PassReaches(s: Db, tables: seq<nat>) returns (steps: seq<Step>)
    ensures Reaches(s, steps, Passed(s, Elements(tables))) && IsPass(steps)
  {
    var s' := Apply(s, ComputeHorizon);
    var rest := TablesReach(s', tables);
    ReachesOne(s, ComputeHorizon);
    ReachesOn(s, [ComputeHorizon], s', rest, Passed(s, Elements(tables)));
    steps := [ComputeHorizon] + rest;
    assert steps[1..] == rest;
  }

  // ---------------------------------------------------------------- runs made of whole calls

  /** Nothing is under way. */
  predicate Quiet(s: Db) {
    s.pending == {} && s.lock.Free?
  }

  /** The steps of one call: a begin, a commit that wins, a pass, or a call of a single step. */
  ghost predicate IsCall(steps: seq<Step>) {
    || (|steps| == 1 && (steps[0].Tick? || steps[0].Buffer? || steps[0].Rollback? || steps[0].CommitCheck?))
    || (exists stamp :: steps == BeginSteps(stamp))
    || (exists id, stamp :: steps == CommitSteps(id, stamp))
    || IsPass(steps)
  }

  /** A call that runs from its first to its last step without interruption. */
  ghost predicate WholeCall(s: Db, steps: seq<Step>, s': Db) {
    IsCall(steps) && Reaches(s, steps, s') && Quiet(s')
  }

  ghost predicate CallsLead(s: Db, calls: seq<seq<Step>>, s': Db)
    decreases |calls|
  {
    if calls == [] then s == s'
    else
      var n := |calls| - 1;
      exists mid :: CallsLead(s, calls[..n], mid) && WholeCall(mid, calls[n], s')
  }

  datatype Journal = Journal(first: Db, calls: seq<seq<Step>>, last: Db)

  ghost predicate Sound(j: Journal) {
    Fresh(j.first, j.first.clock) && CallsLead(j.first, j.calls, j.last)
  }

  /** A run of the machine from a fresh state, made of whole calls. */
  type Run = j: Journal | Sound(j) ghost witness Journal(EMPTY, [], EMPTY)

  const EMPTY := Db(map[], 0, {}, {}, map[], Free, [], Idle)

  lemma LeadOn(s: Db, calls: seq<seq<Step>>, mid: Db, steps: seq<Step>, s': Db)
    requires CallsLead(s, calls, mid) && WholeCall(mid, steps, s')
    ensures CallsLead(s, calls + [steps], s')
  {
    assert (calls + [steps])[..|calls|] == calls;
  }

  /** The run that goes on with a further call. */
  ghost function Extended(r: Run, steps: seq<Step>, next: Db): (r': Run)
    requires WholeCall(r.last, steps, next)
    ensures r'.calls == r.calls + [steps] && r'.last == next && r'.first == r.first
  {
    LeadOn(r.first, r.calls, r.last, steps, next);
    Journal(r.first, r.calls + [steps], next)
  }

  lemma {:induction false} StepsKeepInv(s: Db, steps: seq<Step>, s': Db, base: nat)
    requires Inv(s, base) && Reaches(s, steps, s')
    ensures Inv(s', base)
    decreases |steps|
  {
    if steps != [] {
      StepKeepsInv(s, base, steps[0]);
      StepsKeepInv(Apply(s, steps[0]), steps[1..], s', base);
    }
  }

  lemma {:induction false} CallsKeepInv(s: Db, calls: seq<seq<Step>>, s': Db, base: nat)
    requires Fresh(s, base) && CallsLead(s, calls, s')
    ensures Inv(s', base) && Quiet(s')
    decreases |calls|
  {
    if calls != [] {
      var n := |calls| - 1;
      var mid :| CallsLead(s, calls[..n], mid) && WholeCall(mid, calls[n], s');
      CallsKeepInv(s, calls[..n], mid, base);
      StepsKeepInv(mid, calls[n], s', base);
    }
  }

  lemma RunInv(r: Run)
    ensures Inv(r.last, r.first.clock) && Quiet(r.last)
  {
    CallsKeepInv(r.first, r.calls, r.last, r.first.clock);
  }

  // ---------------------------------------------------------------- whole calls keep snapshots

  ghost predicate SameReads(s: Db, s': Db, at: nat) {
    forall row :: Read(s'.store, row, at) == Read(s.store, row, at)
  }

  lemma SameReadsOn(a: Db, b: Db, c: Db, at: nat)
    requires SameReads(a, b, at) && SameReads(b, c, at)
    ensures SameReads(a, c, at)
  {
  }

  /** Nothing that is read at the stamp is about to change. */
  ghost predicate Safe(s: Db, base: nat, at: nat) {
    Inv(s, base) && Settled(s, at) && Spared(s, at)
  }

  lemma StepKeepsSafe(s: Db, base: nat, step: Step, at: nat)
    requires Safe(s, base, at) && Enabled(s, step)
    requires step.Scan? ==> forall row :: !Overruns(s, step.table, row, at)
    ensures Safe(Apply(s, step), base, at) && SameReads(s, Apply(s, step), at)
  {
    StepKeepsInv(s, base, step);
    StepKeepsSpared(s, base, step, at);
    forall row
      ensures Read(Apply(s, step).store, row, at) == Read(s.store, row, at)
    {
      assert !Dooms(s, row, at);
      StepChangesReadIff(s, base, step, row, at);
    }
  }

  /** Begins, commits and rollbacks change no such read. */
  lemma {:induction false} UnscannedKeepSafe(s: Db, steps: seq<Step>, s': Db, base: nat, at: nat)
    requires Safe(s, base, at) && Reaches(s, steps, s') && forall i :: 0 <= i < |steps| ==> !steps[i].Scan?
    ensures Safe(s', base, at) && SameReads(s, s', at)
    decreases |steps|
  {
    if steps != [] {
      var next := Apply(s, steps[0]);
      StepKeepsSafe(s, base, steps[0], at);
      UnscannedKeepSafe(next, steps[1..], s', base, at);
      SameReadsOn(s, next, s', at);
    }
  }

  /** Nor do scans under a horizon that is not above the stamp. */
  lemma {:induction false} CollectingKeepsSafe(s: Db, steps: seq<Step>, s': Db, base: nat, at: nat)
    requires Safe(s, base, at) && Reaches(s, steps, s') && AllCollecting(steps)
    requires s.gc.Running? && s.gc.horizon <= at
    ensures Safe(s', base, at) && SameReads(s, s', at)
    decreases |steps|
  {
    if steps != [] {
      var next := Apply(s, steps[0]);
      StepKeepsSafe(s, base, steps[0], at);
      CollectingKeepsSafe(next, steps[1..], s', base, at);
      SameReadsOn(s, next, s', at);
    }
  }

  lemma {:induction false} CollectingOpensNone(s: Db, steps: seq<Step>, s': Db)
    requires Reaches(s, steps, s') && AllCollecting(steps)
    ensures s'.live == s.live
    decreases |steps|
  {
    if steps != [] {
      CollectingOpensNone(Apply(s, steps[0]), steps[1..], s');
    }
  }

  lemma PassKeepsSafe(s: Db, steps: seq<Step>, s': Db, base: nat, id: nat)
    requires Safe(s, base, id) && Reaches(s, steps, s') && IsPass(steps) && id in s'.live
    ensures Safe(s', base, id) && SameReads(s, s', id)
  {
    var next := Apply(s, ComputeHorizon);
    CollectingOpensNone(next, steps[1..], s');
    StepKeepsSafe(s, base, ComputeHorizon, id);
    CollectingKeepsSafe(next, steps[1..], s', base, id);
    SameReadsOn(s, next, s', id);
  }

  lemma CallKeepsSafe(s: Db, steps: seq<Step>, s': Db, base: nat, id: nat)
    requires Safe(s, base, id) && WholeCall(s, steps, s') && id in s'.live
    ensures Safe(s', base, id) && SameReads(s, s', id)
  {
    if IsPass(steps) {
      PassKeepsSafe(s, steps, s', base, id);
    } else {
      UnscannedKeepSafe(s, steps, s', base, id);
    }
  }

  lemma {:induction false} UnregisteredOpensNone(s: Db, steps: seq<Step>, s': Db)
    requires Reaches(s, steps, s') && forall i :: 0 <= i < |steps| ==> !steps[i].Register?
    ensures s'.live.Keys <= s.live.Keys
    decreases |steps|
  {
    if steps != [] {
      UnregisteredOpensNone(Apply(s, steps[0]), steps[1..], s');
    }
  }

  lemma BeginEnds(s: Db, stamp: nat, s': Db)
    requires Reaches(s, BeginSteps(stamp), s')
    ensures s'.store == s.store && s'.clock == stamp && s'.lock == s.lock && s'.live == s.live[stamp := []]
    ensures s.clock < stamp <= U64_MAX
  {
    var next := Apply(s, BeginTick(stamp));
    assert BeginSteps(stamp)[1..] == [Register(stamp)] && [Register(stamp)][1..] == [];
    assert Reaches(next, [Register(stamp)], s');
    assert Reaches(Apply(next, Register(stamp)), [], s');
  }

  /** Only a begin opens a transaction, with everything stored in its view. */
  lemma BeginsSafe(s: Db, steps: seq<Step>, s': Db, base: nat, id: nat)
    requires Inv(s, base) && Quiet(s) && WholeCall(s, steps, s') && id in s'.live && id !in s.live
    ensures steps == BeginSteps(id) && Safe(s', base, id)
    ensures forall row :: Read(s'.store, row, id) == Read(s.store, row, U64_MAX)
  {
    if forall i :: 0 <= i < |steps| ==> !steps[i].Register? {
      UnregisteredOpensNone(s, steps, s');
    }
    var stamp :| steps == BeginSteps(stamp);
    BeginEnds(s, stamp, s');
    StepsKeepInv(s, steps, s', base);
    HighReadsSpared(s', base, id);
    forall row
      ensures Read(s'.store, row, id) == Read(s.store, row, U64_MAX)
    {
      AllVisible(s.store, row, s.clock, id);
    }
  }

  /** The call that began the transaction, and the state it began in. */
  ghost predicate BegunAt(first: Db, calls: seq<seq<Step>>, id: nat, i: nat, s: Db) {
    i < |calls| && calls[i] == BeginSteps(id) && CallsLead(first, calls[..i], s)
  }

  lemma BegunEarlier(first: Db, calls: seq<seq<Step>>, n: nat, id: nat, i: nat, s: Db)
    requires n <= |calls| && BegunAt(first, calls[..n], id, i, s)
    ensures BegunAt(first, calls, id, i, s)
  {
    assert calls[..n][..i] == calls[..i];
  }

  lemma {:induction false} CallsKeepSafe(first: Db, calls: seq<seq<Step>>, s: Db, base: nat, id: nat)
    returns (i: nat, s0: Db)
    requires Fresh(first, base) && CallsLead(first, calls, s) && id in s.live
    ensures BegunAt(first, calls, id, i, s0) && Safe(s, base, id)
    ensures forall row :: Read(s.store, row, id) == Read(s0.store, row, U64_MAX)
    decreases |calls|
  {
    var n := |calls| - 1;
    var mid :| CallsLead(first, calls[..n], mid) && WholeCall(mid, calls[n], s);
    if id in mid.live {
      i, s0 := CallsKeepSafe(first, calls[..n], mid, base, id);
      BegunEarlier(first, calls, n, id, i, s0);
      CallKeepsSafe(mid, calls[n], s, base, id);
    } else {
      CallsKeepInv(first, calls[..n], mid, base);
      BeginsSafe(mid, calls[n], s, base, id);
      i, s0 := n, mid;
    }
  }

  /** In a run made of whole calls every open transaction reads its own writes and otherwise what
      was stored when it began, with no further condition. */
  lemma WholeCallsIsolate(r: Run, id: nat) returns (i: nat, s: Db)
    requires id in r.last.live
    ensures BegunAt(r.first, r.calls, id, i, s)
    ensures forall row :: TxRead(r.last, id, row) ==
              if row in Rows(r.last.live[id]) then OwnWrite(r.last.live[id], row) else Read(s.store, row, U64_MAX)
  {
    i, s := CallsKeepSafe(r.first, r.calls, r.last, r.first.clock, id);
  }
}
