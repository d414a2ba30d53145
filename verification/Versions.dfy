/** Multi-version rows: what a snapshot reads, and exactly when a write or a
    collection changes it. Stamps are the `u64` encodings of HLC timestamps. */
module Versions {
  import opened Base

  datatype RowKey = RowKey(table: nat, pk: Bytes)

  datatype VersionKey = VersionKey(row: RowKey, stamp: nat)

  type Store = map<VersionKey, Bytes>

  datatype Write = Write(row: RowKey, value: Bytes)

  /** The stamp of the newest version of `row` at or below `at`. */
  function Newest(s: Store, row: RowKey, at: nat): (r: Option<nat>)
    ensures r.Some? ==> r.value <= at && VersionKey(row, r.value) in s
    ensures r.Some? ==> forall t: nat :: r.value < t <= at ==> VersionKey(row, t) !in s
    ensures r.None? ==> forall t: nat :: t <= at ==> VersionKey(row, t) !in s
  {
    if VersionKey(row, at) in s then Some(at)
    else if at == 0 then None
    else Newest(s, row, at - 1)
  }

  /** What a snapshot taken at `at` reads for `row`. */
  function Read(s: Store, row: RowKey, at: nat): Option<Bytes> {
    match Newest(s, row, at)
    case Some(t) => Some(s[VersionKey(row, t)])
    case None => None
  }

  lemma NewestIs(s: Store, row: RowKey, at: nat, t: nat)
    requires t <= at && VersionKey(row, t) in s && forall u: nat :: t < u <= at ==> VersionKey(row, u) !in s
    ensures Newest(s, row, at) == Some(t)
  {
  }

  lemma SameNewest(s: Store, s': Store, row: RowKey, at: nat)
    requires forall t: nat :: t <= at ==> (VersionKey(row, t) in s <==> VersionKey(row, t) in s')
    ensures Newest(s, row, at) == Newest(s', row, at)
  {
    var n, n' := Newest(s, row, at), Newest(s', row, at);
    if n.Some? {
      assert VersionKey(row, n.value) in s';
    }
    if n'.Some? {
      assert VersionKey(row, n'.value) in s;
    }
  }

  // ---------------------------------------------------------------- writing

  function Rows(writes: seq<Write>): set<RowKey> {
    set w | w in writes :: w.row
  }

  /** The value a write buffer holds for `row`: the last one buffered. */
  function OwnWrite(writes: seq<Write>, row: RowKey): (r: Option<Bytes>)
    ensures r.Some? <==> row in Rows(writes)
  {
    if |writes| == 0 then None
    else
      assert writes == writes[..|writes| - 1] + [writes[|writes| - 1]];
      if writes[|writes| - 1].row == row then Some(writes[|writes| - 1].value)
      else OwnWrite(writes[..|writes| - 1], row)
  }

  /** The atomic batch of a commit: one version per buffered row, later entries winning. */
  function Flush(s: Store, writes: seq<Write>, stamp: nat): (s': Store)
    ensures s'.Keys == s.Keys + (set w | w in writes :: VersionKey(w.row, stamp))
    ensures forall vk :: vk in s && !(vk.stamp == stamp && vk.row in Rows(writes)) ==> s'[vk] == s[vk]
    ensures forall row :: row in Rows(writes) ==> Some(s'[VersionKey(row, stamp)]) == OwnWrite(writes, row)
  {
    if |writes| == 0 then s
    else
      var last := writes[|writes| - 1];
      assert writes == writes[..|writes| - 1] + [last];
      Flush(s, writes[..|writes| - 1], stamp)[VersionKey(last.row, stamp) := last.value]
  }

  ghost predicate Below(s: Store, bound: nat) {
    forall vk :: vk in s ==> vk.stamp <= bound
  }

  /** A batch stamped `stamp` moves the read of a snapshot exactly when it writes the row,
      the snapshot is not older than the stamp, and no newer version shadows it. */
  lemma FlushMovesReadIff(s: Store, writes: seq<Write>, stamp: nat, row: RowKey, at: nat)
    requires forall w :: w in writes ==> VersionKey(w.row, stamp) !in s
    ensures Newest(Flush(s, writes, stamp), row, at) != Newest(s, row, at) <==>
              row in Rows(writes) && stamp <= at &&
              (Newest(s, row, at).None? || Newest(s, row, at).value < stamp)
  {
    var s' := Flush(s, writes, stamp);
    if row in Rows(writes) && stamp <= at && (Newest(s, row, at).None? || Newest(s, row, at).value < stamp) {
      assert VersionKey(row, stamp) in s';
    } else if row in Rows(writes) && stamp <= at {
      var t := Newest(s, row, at).value;
      assert VersionKey(row, t) in s';
      assert forall u: nat :: t < u <= at ==> VersionKey(row, u) !in s';
    } else {
      SameNewest(s, s', row, at);
    }
  }

  lemma FlushedRowsReadBack(s: Store, writes: seq<Write>, stamp: nat, row: RowKey, at: nat)
    requires row in Rows(writes) && Below(s, stamp) && stamp <= at
    ensures Read(Flush(s, writes, stamp), row, at) == OwnWrite(writes, row)
  {
    var s' := Flush(s, writes, stamp);
    assert VersionKey(row, stamp) in s';
    assert forall t: nat :: stamp < t <= at ==> VersionKey(row, t) !in s';
  }

  /** Some buffered row has a version newer than the snapshot (first committer wins). */
  predicate Conflicts(s: Store, writes: seq<Write>, snapshot: nat, latest: nat) {
    exists w :: w in writes && Newest(s, w.row, latest).Some? && Newest(s, w.row, latest).value > snapshot
  }

  // ---------------------------------------------------------------- collecting

  /** A version that a pass under `horizon` deletes: a newer one also lies at or below it. */
  predicate Obsolete(s: Store, vk: VersionKey, horizon: nat) {
    Newest(s, vk.row, horizon).Some? && vk.stamp < Newest(s, vk.row, horizon).value
  }

  function Garbage(s: Store, tables: set<nat>, horizon: nat): set<VersionKey> {
    set vk | vk in s && vk.row.table in tables && Obsolete(s, vk, horizon)
  }

  function Collect(s: Store, tables: set<nat>, horizon: nat): Store {
    s - Garbage(s, tables, horizon)
  }

  /** A pass keeps the read of a snapshot exactly when the snapshot does not sit between
      two versions of the row that both lie at or below the horizon. */
  lemma CollectKeepsReadIff(s: Store, tables: set<nat>, horizon: nat, row: RowKey, at: nat)
    ensures Read(Collect(s, tables, horizon), row, at) == Read(s, row, at) <==>
              !(row.table in tables && at < horizon &&
                Newest(s, row, at).Some? &&
                Newest(s, row, horizon) != Newest(s, row, at))
  {
    var s' := Collect(s, tables, horizon);
    var n, k := Newest(s, row, at), Newest(s, row, horizon);
    if n.None? || row.table !in tables {
      SameNewest(s, s', row, at);
    } else if at < horizon && k != n {
      assert k.Some? && n.value < k.value;
      assert at < k.value;
      assert forall t: nat :: t <= at ==> VersionKey(row, t) !in s';
    } else {
      assert VersionKey(row, n.value) in s';
    }
  }

  lemma CollectKeepsReadsFrom(s: Store, tables: set<nat>, horizon: nat, row: RowKey, at: nat)
    requires horizon <= at
    ensures Read(Collect(s, tables, horizon), row, at) == Read(s, row, at)
  {
    CollectKeepsReadIff(s, tables, horizon, row, at);
  }

  lemma CollectKeepsNewest(s: Store, tables: set<nat>, horizon: nat, row: RowKey, at: nat)
    ensures Newest(s, row, at).Some? && (forall t: nat :: VersionKey(row, t) in s ==> t <= at) ==>
              Newest(Collect(s, tables, horizon), row, at) == Newest(s, row, at)
  {
    var n := Newest(s, row, at);
    if n.Some? && (forall t: nat :: VersionKey(row, t) in s ==> t <= at) {
      assert VersionKey(row, n.value) in Collect(s, tables, horizon);
    }
  }
}
