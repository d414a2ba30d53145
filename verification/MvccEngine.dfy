/** Transactions, the transaction manager and the garbage collector as mutable objects. Their
    calls, in whatever order, make up one run of the state machine of `Mvcc`. */
module MvccEngine {
  import opened Base
  import opened Hlc
  import opened Versions
  import opened Mvcc
  import opened Calls

  datatype TxnError = WriteConflict | TxnDone

  class Transaction {
    const id: nat
    const snapshotTs: Timestamp
    var writes: seq<Write>
    var done: bool

    ghost predicate Valid() {
      Fits(snapshotTs) && id == ToU64(snapshotTs)
    }

    constructor (ts: Timestamp)
      requires Fits(ts)
      ensures Valid() && snapshotTs == ts && writes == [] && !done
    {
      id := ToU64(ts);
      snapshotTs := ts;
      writes := [];
      done := false;
    }

    /** Buffers a write; an earlier write to the same row is dropped. */
    method Buffer(row: RowKey, value: Bytes)
      modifies this`writes
      ensures writes == Buffered(old(writes), Write(row, value))
    {
      var kept: seq<Write> := [];
      for i := 0 to |writes|
        invariant writes == old(writes)
        invariant kept == Without(writes[..i], row)
      {
        assert writes[..i + 1][..i] == writes[..i];
        if writes[i].row != row {
          kept := kept + [writes[i]];
        }
      }
      assert writes[..|writes|] == writes;
      writes := kept + [Write(row, value)];
    }

    /** Searches the buffer from its end. */
    method ReadOwnWrite(row: RowKey) returns (r: Option<Bytes>)
      ensures r == OwnWrite(writes, row)
    {
      var i := |writes|;
      assert writes[..i] == writes;
      while i > 0
        invariant 0 <= i <= |writes|
        invariant OwnWrite(writes[..i], row) == OwnWrite(writes, row)
      {
        i := i - 1;
        assert writes[..i + 1][..i] == writes[..i];
        if writes[i].row == row {
          return Some(writes[i].value);
        }
      }
      r := None;
    }
  }

  /** The data column family, seen as versions of rows. */
  class StorageEngine {
    var versions: Store

    constructor ()
      ensures versions == map[]
    {
      versions := map[];
    }

    /** Every version key of a table, each once. */
    method RawScan(table: nat) returns (keys: seq<VersionKey>)
      ensures forall vk :: vk in keys <==> vk in versions && vk.row.table == table
      ensures forall i, j :: 0 <= i < j < |keys| ==> keys[i] != keys[j]
    {
      keys := [];
      var todo := versions.Keys;
      while todo != {}
        invariant todo <= versions.Keys
        invariant forall vk :: vk in keys <==> vk in versions.Keys - todo && vk.row.table == table
        invariant forall i, j :: 0 <= i < j < |keys| ==> keys[i] != keys[j]
        decreases todo
      {
        var vk :| vk in todo;
        todo := todo - {vk};
        if vk.row.table == table {
          keys := keys + [vk];
        }
      }
    }
  }

  lemma StampAbove(snapshot: Timestamp, now: Timestamp, wall: nat)
    requires Fits(snapshot) && Fits(now) && ToU64(snapshot) <= ToU64(now) && Fits(Advance(now, wall))
    ensures ToU64(now) < ToU64(Advance(now, wall)) <= U64_MAX && Less(snapshot, Advance(now, wall))
  {
    EncodingPreservesOrder(now, Advance(now, wall));
    EncodingPreservesOrder(snapshot, Advance(now, wall));
  }

  class TransactionManager {
    const engine: StorageEngine
    const clock: HlcClock
    var active: set<nat>

    ghost var open: map<nat, Transaction> // the transactions begun and not finished
    ghost var run: Run                    // the run of the machine so far

    /** The fields are those of the last state of the run. */
    ghost predicate Valid()
      reads this, engine, clock, open.Values
    {
      && Fits(clock.inner) && run.last.clock == ToU64(clock.inner)
      && run.last.store == engine.versions && run.last.active == active
      && run.last.pending == {} && run.last.lock.Free?
      && run.last.live.Keys == open.Keys
      && forall id :: id in open ==>
           open[id].id == id && open[id].Valid() && !open[id].done && run.last.live[id] == open[id].writes
    }

    ghost predicate Holds(tx: Transaction)
      reads this
    {
      tx.id in open && open[tx.id] == tx
    }

    constructor (engine: StorageEngine, clock: HlcClock)
      ensures this.engine == engine && this.clock == clock && active == {} && open == map[]
      ensures Fits(clock.inner) && Below(engine.versions, ToU64(clock.inner)) ==> Valid() && run.calls == []
    {
      this.engine := engine;
      this.clock := clock;
      active := {};
      open := map[];
      ghost var s := Db(engine.versions, ToU64(clock.inner), {}, {}, map[], Free, [], Idle);
      run := if Fresh(s, s.clock) then Journal(s, [], s) else Journal(EMPTY, [], EMPTY);
    }

    lemma InBounds()
      requires Valid()
      ensures Below(engine.versions, U64_MAX)
      ensures forall id :: id in active ==> id <= run.last.clock <= U64_MAX
      ensures open.Keys <= active
    {
      RunInv(run);
    }

    method Begin(wall: nat) returns (tx: Transaction)
      requires Valid() && Fits(Advance(clock.inner, wall))
      modifies this`active, this`open, this`run, clock
      ensures Valid() && fresh(tx) && tx.writes == [] && !tx.done
      ensures clock.inner == Advance(old(clock.inner), wall) == tx.snapshotTs
      ensures run.calls == old(run.calls) + [BeginSteps(tx.id)]
      ensures open == old(open)[tx.id := tx] && active == old(active) + {tx.id}
    {
      InBounds();
      var ts := clock.Tick(wall);
      EncodingPreservesOrder(old(clock.inner), ts);
      active := active + {ToU64(ts)};
      tx := new Transaction(ts);
      open := open[tx.id := tx];
      BeginReaches(run.last, tx.id);
      run := Extended(run, BeginSteps(tx.id), Begun(run.last, tx.id));
    }

    /** The caller buffers a write in its transaction. */
    method Write(tx: Transaction, row: RowKey, value: Bytes)
      requires Valid() && Holds(tx)
      modifies tx`writes, this`run
      ensures Valid() && tx.writes == Buffered(old(tx.writes), Versions.Write(row, value))
      ensures run.calls == old(run.calls) + [[Buffer(tx.id, Versions.Write(row, value))]]
    {
      var step := Buffer(tx.id, Versions.Write(row, value));
      tx.Buffer(row, value);
      ReachesOne(run.last, step);
      run := Extended(run, [step], Apply(run.last, step));
    }

    method Commit(tx: Transaction, wall: nat) returns (r: Result<Timestamp, TxnError>)
      requires Valid() && (!tx.done ==> Holds(tx)) && Fits(Advance(clock.inner, wall))
      modifies this`active, this`open, this`run, clock, engine, tx`done
      ensures Valid()
      ensures old(tx.done) ==> r == Err(TxnDone) && unchanged(this, clock, engine, tx)
      ensures !old(tx.done) ==>
        && tx.done && open == old(open) - {tx.id} && active == old(active) - {tx.id}
        && (r.Err? <==> old(Loses(run.last, tx.id))) && (r.Err? ==> r.error == WriteConflict)
        && (r.Ok? ==> r.value == clock.inner && Less(tx.snapshotTs, r.value))
        && run.calls == old(run.calls) +
             [if r.Ok? then CommitSteps(tx.id, ToU64(r.value)) else [CommitCheck(tx.id)]]
    {
      if tx.done {
        return Err(TxnDone);
      }
      InBounds();
      var conflict := HasConflict(tx);
      if conflict {
        Refuse(tx);
        r := Err(WriteConflict);
      } else {
        StampAbove(tx.snapshotTs, clock.inner, wall);
        var commitTs := Win(tx, wall, AfterCommit(tx, ToU64(Advance(clock.inner, wall))));
        r := Ok(commitTs);
      }
    }

    /** The losing transaction is consumed and its snapshot leaves the registry. */
    method Refuse(tx: Transaction)
      requires Valid() && Holds(tx) && Loses(run.last, tx.id)
      modifies this`active, this`open, this`run, tx`done
      ensures Valid() && tx.done && open == old(open) - {tx.id} && active == old(active) - {tx.id}
      ensures run.calls == old(run.calls) + [[CommitCheck(tx.id)]]
    {
      ReachesOne(run.last, CommitCheck(tx.id));
      tx.done, active := true, active - {tx.id};
      open, run := open - {tx.id}, Extended(run, [CommitCheck(tx.id)], Apply(run.last, CommitCheck(tx.id)));
    }

    /** What the run has to show once the transaction has committed. */
    ghost predicate Outcome(tx: Transaction, stamp: nat, next: Run)
      reads this, engine, tx
    {
      && next.last.store == Flush(engine.versions, tx.writes, stamp) && next.last.clock == stamp
      && next.last.active == active - {tx.id} && next.last.live == run.last.live - {tx.id}
      && next.last.pending == {} && next.last.lock.Free?
    }

    ghost function AfterCommit(tx: Transaction, stamp: nat): (next: Run)
      requires Valid() && Holds(tx) && !Loses(run.last, tx.id) && run.last.clock < stamp <= U64_MAX
      reads this, engine, clock, open.Values
      ensures next.calls == run.calls + [CommitSteps(tx.id, stamp)] && Outcome(tx, stamp, next)
    {
      CommitReaches(run.last, tx.id, stamp);
      Extended(run, CommitSteps(tx.id, stamp), Committed(run.last, tx.id, stamp))
    }

    /** The winning transaction ticks, writes its batch and leaves the registry. */
    method WriteOut(tx: Transaction, wall: nat) returns (commitTs: Timestamp)
      modifies this`active, clock, engine, tx`done
      ensures commitTs == clock.inner == Advance(old(clock.inner), wall)
      ensures engine.versions == Flush(old(engine.versions), tx.writes, ToU64(commitTs))
      ensures tx.done && active == old(active) - {tx.id}
    {
      commitTs := clock.Tick(wall);
      var batch := Batch(tx, ToU64(commitTs));
      engine.versions, tx.done, active := batch, true, active - {tx.id};
    }

    method Win(tx: Transaction, wall: nat, ghost next: Run) returns (commitTs: Timestamp)
      requires Valid() && Holds(tx) && Fits(Advance(clock.inner, wall))
      requires Outcome(tx, ToU64(Advance(clock.inner, wall)), next)
      modifies this`active, this`open, this`run, clock, engine, tx`done
      ensures Valid() && tx.done && open == old(open) - {tx.id} && active == old(active) - {tx.id}
      ensures commitTs == clock.inner == Advance(old(clock.inner), wall) && run == next
    {
      commitTs := WriteOut(tx, wall);
      open, run := open - {tx.id}, next;
    }

    /** Some buffered row has a version newer than the snapshot. */
    method HasConflict(tx: Transaction) returns (conflict: bool)
      requires tx.Valid() && Below(engine.versions, U64_MAX)
      ensures conflict <==> Conflicts(engine.versions, tx.writes, tx.id, U64_MAX)
    {
      for i := 0 to |tx.writes|
        invariant forall k :: 0 <= k < i ==>
          var n := Newest(engine.versions, tx.writes[k].row, U64_MAX); n.Some? ==> n.value <= tx.id
      {
        var latest := Newest(engine.versions, tx.writes[i].row, U64_MAX);
        if latest.Some? {
          DecodeThenEncode(latest.value);
          EncodingPreservesOrder(tx.snapshotTs, FromU64(latest.value));
          if Less(tx.snapshotTs, FromU64(latest.value)) {
            assert tx.writes[i] in tx.writes;
            return true;
          }
        }
      }
      conflict := false;
    }

    /** The store after the commit's atomic write batch. */
    method Batch(tx: Transaction, stamp: nat) returns (batch: Store)
      ensures batch == Flush(engine.versions, tx.writes, stamp)
    {
      batch := engine.versions;
      for i := 0 to |tx.writes|
        invariant batch == Flush(engine.versions, tx.writes[..i], stamp)
      {
        FlushNext(engine.versions, tx.writes, i, stamp);
        batch := batch[VersionKey(tx.writes[i].row, stamp) := tx.writes[i].value];
      }
      assert tx.writes[..|tx.writes|] == tx.writes;
    }

    static lemma FlushNext(s: Store, writes: seq<Versions.Write>, i: nat, stamp: nat)
      requires i < |writes|
      ensures Flush(s, writes[..i + 1], stamp) ==
                Flush(s, writes[..i], stamp)[VersionKey(writes[i].row, stamp) := writes[i].value]
    {
      assert writes[..i + 1][..i] == writes[..i];
    }

    method Rollback(tx: Transaction)
      requires Valid() && (!tx.done ==> Holds(tx))
      modifies this`active, this`open, this`run, tx
      ensures Valid() && tx.done
      ensures old(tx.done) ==> unchanged(this, tx)
      ensures !old(tx.done) ==>
        && open == old(open) - {tx.id} && active == old(active) - {tx.id} && tx.writes == []
        && run.calls == old(run.calls) + [[Step.Rollback(tx.id)]]
    {
      if !tx.done {
        ghost var step := Step.Rollback(tx.id);
        ReachesOne(run.last, step);
        tx.done, tx.writes, active := true, [], active - {tx.id};
        open, run := open - {tx.id}, Extended(run, [step], Apply(run.last, step));
      }
    }

    /** Own writes, or else what was stored when the transaction began. */
    method Read(tx: Transaction, row: RowKey) returns (r: Option<Bytes>)
      requires Valid() && Holds(tx)
      ensures tx.id in run.last.live && r == TxRead(run.last, tx.id, row)
      ensures exists i, s :: BegunAt(run.first, run.calls, tx.id, i, s) &&
                r == if row in Rows(tx.writes) then OwnWrite(tx.writes, row) else Versions.Read(s.store, row, U64_MAX)
    {
      ghost var i, s := WholeCallsIsolate(run, tx.id);
      r := tx.ReadOwnWrite(row);
      if r.None? {
        r := Versions.Read(engine.versions, row, ToU64(tx.snapshotTs));
      }
    }
  }

  // ---------------------------------------------------------------- collection

  predicate Ascending(s: seq<nat>) {
    forall i, j :: 0 <= i < j < |s| ==> s[i] < s[j]
  }

  /** Inserts into an ascending sequence a stamp it does not hold. */
  function Insert(s: seq<nat>, x: nat): (r: seq<nat>)
    requires Ascending(s) && x !in s
    ensures Ascending(r) && |r| == |s| + 1
    ensures forall y :: y in r <==> y in s || y == x
  {
    if s == [] then [x]
    else if x < s[0] then [x] + s
    else
      var rest := Insert(s[1..], x);
      assert forall y :: y in s <==> y == s[0] || y in s[1..];
      assert forall y :: y in [s[0]] + rest <==> y == s[0] || y in rest;
      assert forall j :: 0 <= j < |rest| ==> rest[j] in rest;
      [s[0]] + rest
  }

  method SortStamps(s: seq<nat>) returns (r: seq<nat>)
    requires forall i, j :: 0 <= i < j < |s| ==> s[i] != s[j]
    ensures Ascending(r)
    ensures forall y :: y in r <==> y in s
  {
    r := [];
    for i := 0 to |s|
      invariant Ascending(r)
      invariant forall y :: y in r <==> y in s[..i]
    {
      assert s[..i + 1] == s[..i] + [s[i]];
      r := Insert(r, s[i]);
    }
    assert s[..|s|] == s;
  }

  class GarbageCollector {
    const engine: StorageEngine
    const manager: TransactionManager // shares its active-snapshot registry

    ghost predicate Valid()
      reads manager, manager.engine, manager.clock, manager.open.Values
    {
      engine == manager.engine && manager.Valid()
    }

    constructor (manager: TransactionManager)
      ensures this.manager == manager && engine == manager.engine
    {
      this.manager := manager;
      engine := manager.engine;
    }

    method SafeHorizon() returns (h: Timestamp)
      requires forall id :: id in manager.active ==> id <= U64_MAX
      ensures Fits(h) && ToU64(h) == Horizon(manager.active)
    {
      if manager.active == {} {
        h := MAX;
      } else {
        var first := Horizon(manager.active);
        DecodeThenEncode(first);
        h := FromU64(first);
      }
    }

    /** Groups the versions of a table by primary key, sorts each group and deletes all but
        the newest version at or below the horizon. */
    method GcTable(table: nat, horizon: Timestamp) returns (deleted: nat)
      requires Below(engine.versions, U64_MAX) && Fits(horizon)
      modifies engine
      ensures engine.versions == Collect(old(engine.versions), {table}, ToU64(horizon))
      ensures deleted == |Garbage(old(engine.versions), {table}, ToU64(horizon))|
    {
      ghost var before := engine.versions;
      ghost var h := ToU64(horizon);
      var byPk := GroupByPk(table);
      deleted := 0;
      var todo := byPk.Keys;
      ghost var done: set<Bytes> := {};
      RemainingNone(before, table, h);
      while todo != {}
        invariant todo + done == byPk.Keys && todo !! done
        invariant engine.versions == Remaining(before, table, done, h)
        invariant deleted == |Swept(before, table, done, h)|
        decreases todo
      {
        var pk :| pk in todo;
        RemainingAdd(before, table, done, pk, h);
        var n := Sweep(RowKey(table, pk), byPk[pk], horizon, before);
        todo, done := todo - {pk}, done + {pk};
        deleted := deleted + n;
      }
      RemainingAll(before, table, done, h);
    }

    static ghost function Remaining(s: Store, table: nat, pks: set<Bytes>, horizon: nat): Store {
      s - Swept(s, table, pks, horizon)
    }

    static lemma RemainingNone(s: Store, table: nat, horizon: nat)
      ensures Remaining(s, table, {}, horizon) == s && Swept(s, table, {}, horizon) == {}
    {
      assert Swept(s, table, {}, horizon) == {};
    }

    static lemma RemainingAdd(s: Store, table: nat, pks: set<Bytes>, pk: Bytes, horizon: nat)
      requires pk !in pks
      ensures Remaining(s, table, pks + {pk}, horizon) ==
                Remaining(s, table, pks, horizon) - Swept(s, table, {pk}, horizon)
      ensures |Swept(s, table, pks + {pk}, horizon)| ==
              |Swept(s, table, pks, horizon)| + |Swept(s, table, {pk}, horizon)|
      ensures forall t: nat :: VersionKey(RowKey(table, pk), t) in s ==>
                VersionKey(RowKey(table, pk), t) in Remaining(s, table, pks, horizon)
    {
      SweptAdd(s, table, pks, pk, horizon);
      MinusBoth(s, Swept(s, table, pks, horizon), Swept(s, table, {pk}, horizon));
    }

    static lemma SweptAdd(s: Store, table: nat, pks: set<Bytes>, pk: Bytes, horizon: nat)
      requires pk !in pks
      ensures Swept(s, table, pks + {pk}, horizon) == Swept(s, table, pks, horizon) + Swept(s, table, {pk}, horizon)
      ensures Swept(s, table, pks, horizon) !! Swept(s, table, {pk}, horizon)
      ensures forall t: nat :: VersionKey(RowKey(table, pk), t) !in Swept(s, table, pks, horizon)
    {
    }

    static lemma MinusBoth(s: Store, a: set<VersionKey>, b: set<VersionKey>)
      ensures s - (a + b) == (s - a) - b
      ensures a !! b ==> |a + b| == |a| + |b|
    {
    }

    static lemma RemainingAll(s: Store, table: nat, pks: set<Bytes>, horizon: nat)
      requires forall vk :: vk in s && vk.row.table == table ==> vk.row.pk in pks
      ensures Remaining(s, table, pks, horizon) == Collect(s, {table}, horizon)
      ensures Swept(s, table, pks, horizon) == Garbage(s, {table}, horizon)
    {
      assert Swept(s, table, pks, horizon) == Garbage(s, {table}, horizon);
    }

    static ghost function Swept(s: Store, table: nat, pks: set<Bytes>, horizon: nat): set<VersionKey> {
      set vk | vk in s && vk.row.table == table && vk.row.pk in pks && Obsolete(s, vk, horizon)
    }

    ghost predicate Grouped(table: nat, keys: seq<VersionKey>, byPk: map<Bytes, seq<nat>>) {
      && (forall vk :: vk in keys && vk.row.table == table ==> vk.row.pk in byPk)
      && (forall pk, t: nat :: pk in byPk ==> (t in byPk[pk] <==> VersionKey(RowKey(table, pk), t) in keys))
      && (forall pk, i, j :: pk in byPk && 0 <= i < j < |byPk[pk]| ==> byPk[pk][i] != byPk[pk][j])
    }

    method GroupByPk(table: nat) returns (byPk: map<Bytes, seq<nat>>)
      ensures forall vk :: vk in engine.versions && vk.row.table == table ==> vk.row.pk in byPk
      ensures forall pk, t: nat :: pk in byPk ==>
                (t in byPk[pk] <==> VersionKey(RowKey(table, pk), t) in engine.versions)
      ensures forall pk, i, j :: pk in byPk && 0 <= i < j < |byPk[pk]| ==> byPk[pk][i] != byPk[pk][j]
    {
      var keys := engine.RawScan(table);
      byPk := map[];
      for k := 0 to |keys|
        invariant Grouped(table, keys[..k], byPk)
      {
        var vk := keys[k];
        assert keys[..k + 1] == keys[..k] + [vk];
        assert vk !in keys[..k];
        var group := if vk.row.pk in byPk then byPk[vk.row.pk] else [];
        byPk := byPk[vk.row.pk := group + [vk.stamp]];
      }
      assert keys[..|keys|] == keys;
    }

    /** Deletes the obsolete versions of one row. */
    method Sweep(row: RowKey, stamps: seq<nat>, horizon: Timestamp, ghost before: Store) returns (deleted: nat)
      requires Fits(horizon) && Below(before, U64_MAX)
      requires forall i, j :: 0 <= i < j < |stamps| ==> stamps[i] != stamps[j]
      requires forall t: nat :: t in stamps <==> VersionKey(row, t) in before
      requires forall t: nat :: VersionKey(row, t) in before ==> VersionKey(row, t) in engine.versions
      modifies engine
      ensures engine.versions == old(engine.versions) - Swept(before, row.table, {row.pk}, ToU64(horizon))
      ensures deleted == |Swept(before, row.table, {row.pk}, ToU64(horizon))|
    {
      var below := AtOrBelow(stamps, horizon);
      ObsoleteStamps(before, row, below, ToU64(horizon));
      deleted := 0;
      if |below| > 1 {
        deleted := DeleteAll(row, below[..|below| - 1]);
      } else {
        assert KeysOf(row, if |below| > 0 then below[..|below| - 1] else []) == {};
      }
    }

    method DeleteAll(row: RowKey, stamps: seq<nat>) returns (deleted: nat)
      requires Ascending(stamps) && forall t :: t in stamps ==> VersionKey(row, t) in engine.versions
      modifies engine
      ensures engine.versions == old(engine.versions) - KeysOf(row, stamps)
      ensures deleted == |KeysOf(row, stamps)|
    {
      deleted := 0;
      ghost var before := engine.versions;
      for i := 0 to |stamps|
        invariant engine.versions == before - KeysOf(row, stamps[..i])
        invariant deleted == |KeysOf(row, stamps[..i])|
      {
        KeysOfNext(before, row, stamps, i);
        engine.versions := engine.versions - {VersionKey(row, stamps[i])};
        deleted := deleted + 1;
      }
      assert stamps[..|stamps|] == stamps;
    }

    static ghost function KeysOf(row: RowKey, stamps: seq<nat>): set<VersionKey> {
      set t | t in stamps :: VersionKey(row, t)
    }

    static lemma KeysOfNext(s: Store, row: RowKey, stamps: seq<nat>, i: nat)
      requires Ascending(stamps) && i < |stamps| && VersionKey(row, stamps[i]) in s
      ensures s - KeysOf(row, stamps[..i + 1]) == (s - KeysOf(row, stamps[..i])) - {VersionKey(row, stamps[i])}
      ensures |KeysOf(row, stamps[..i + 1])| == |KeysOf(row, stamps[..i])| + 1
    {
      assert stamps[..i + 1] == stamps[..i] + [stamps[i]];
      assert KeysOf(row, stamps[..i + 1]) == KeysOf(row, stamps[..i]) + {VersionKey(row, stamps[i])};
    }

    /** The stamps at or below the horizon, ascending. */
    static method AtOrBelow(stamps: seq<nat>, horizon: Timestamp) returns (below: seq<nat>)
      requires Fits(horizon) && forall t :: t in stamps ==> t <= U64_MAX
      requires forall i, j :: 0 <= i < j < |stamps| ==> stamps[i] != stamps[j]
      ensures Ascending(below)
      ensures forall t :: t in below <==> t in stamps && t <= ToU64(horizon)
    {
      var sorted := SortStamps(stamps);
      below := [];
      for i := 0 to |sorted|
        invariant Ascending(below)
        invariant forall k :: 0 <= k < |below| ==> below[k] in sorted[..i]
        invariant forall t :: t in below <==> t in sorted[..i] && t <= ToU64(horizon)
      {
        assert sorted[i] in stamps;
        assert sorted[..i + 1] == sorted[..i] + [sorted[i]];
        DecodeThenEncode(sorted[i]);
        EncodingPreservesOrder(FromU64(sorted[i]), horizon);
        if AtMost(FromU64(sorted[i]), horizon) {
          below := below + [sorted[i]];
        }
      }
      assert sorted[..|sorted|] == sorted;
    }

    method RunOnce(tables: seq<nat>) returns (deleted: nat)
      requires Valid()
      modifies engine, manager`run
      ensures Valid() && manager.run.last == Passed(old(manager.run.last), Elements(tables))
      ensures engine.versions ==
                Collect(old(engine.versions), Elements(tables), Horizon(manager.active))
      ensures deleted == |Garbage(old(engine.versions), Elements(tables), Horizon(manager.active))|
    {
      manager.InBounds();
      var h := SafeHorizon();
      var steps := PassReaches(manager.run.last, tables);
      deleted := GcTables(tables, h);
      manager.run := Extended(manager.run, steps, Passed(manager.run.last, Elements(tables)));
    }

    method GcTables(tables: seq<nat>, h: Timestamp) returns (deleted: nat)
      requires Below(engine.versions, U64_MAX) && Fits(h)
      modifies engine
      ensures engine.versions == Collect(old(engine.versions), Elements(tables), ToU64(h))
      ensures deleted == |Garbage(old(engine.versions), Elements(tables), ToU64(h))|
    {
      deleted := 0;
      ghost var before := engine.versions;
      for i := 0 to |tables|
        invariant engine.versions == Collect(before, Elements(tables[..i]), ToU64(h))
        invariant deleted == |Garbage(before, Elements(tables[..i]), ToU64(h))|
      {
        assert tables[..i + 1] == tables[..i] + [tables[i]];
        CollectTableByTable(before, Elements(tables[..i]), tables[i], ToU64(h));
        var n := GcTable(tables[i], h);
        deleted := deleted + n;
      }
      assert tables[..|tables|] == tables;
    }
  }

  lemma LastIsNewest(s: Store, row: RowKey, below: seq<nat>, horizon: nat)
    requires Ascending(below) && |below| > 0
    requires forall t: nat :: t in below <==> VersionKey(row, t) in s && t <= horizon
    ensures Newest(s, row, horizon) == Some(below[|below| - 1])
  {
    var last := below[|below| - 1];
    assert last in below;
    forall t: nat | last < t <= horizon
      ensures VersionKey(row, t) !in s
    {
      assert t !in below;
    }
  }

  /** All but the last of the ascending stamps at or below the horizon are obsolete. */
  lemma ObsoleteStamps(s: Store, row: RowKey, below: seq<nat>, horizon: nat)
    requires Ascending(below)
    requires forall t: nat :: t in below <==> VersionKey(row, t) in s && t <= horizon
    ensures GarbageCollector.Swept(s, row.table, {row.pk}, horizon) ==
              GarbageCollector.KeysOf(row, if |below| > 0 then below[..|below| - 1] else [])
  {
    if |below| > 0 {
      LastIsNewest(s, row, below, horizon);
      assert below == below[..|below| - 1] + [below[|below| - 1]];
    } else {
      assert Newest(s, row, horizon) == None;
    }
  }
}
