/** The loops that carry out `JoinPlan`: nested-loop and hash joins under a row budget,
    in-place filtering and the left-to-right resolution of a FROM clause. */
module JoinExec {
  import opened Base
  import opened Sql
  import opened JoinPlan

  // ---------------------------------------------------------------- joins row by row

  lemma {:induction false} JoinRowSnoc(l: Row, right: seq<Row>, keep: (Row, Row) -> bool, n: nat)
    requires n < |right|
    ensures JoinRow(l, right[..n + 1], keep) ==
              JoinRow(l, right[..n], keep) + (if keep(l, right[n]) then [l + right[n]] else [])
  {
    if n == 0 {
      assert right[..1] == [right[0]] && right[..0] == [];
      assert [right[0]][1..] == [];
    } else {
      JoinRowSnoc(l, right[1..], keep, n - 1);
      assert right[..n + 1][1..] == right[1..][..n] && right[..n][1..] == right[1..][..n - 1];
    }
  }

  lemma {:induction false} JoinBySnoc(left: seq<Row>, right: seq<Row>, keep: (Row, Row) -> bool, n: nat)
    requires n < |left|
    ensures JoinBy(left[..n + 1], right, keep) == JoinBy(left[..n], right, keep) + JoinRow(left[n], right, keep)
  {
    if n == 0 {
      assert left[..1] == [left[0]] && left[..0] == [];
      assert [left[0]][1..] == [];
    } else {
      JoinBySnoc(left[1..], right, keep, n - 1);
      assert left[..n + 1][1..] == left[1..][..n] && left[..n][1..] == left[1..][..n - 1];
    }
  }

  lemma {:induction false} JoinRowGrows(l: Row, right: seq<Row>, keep: (Row, Row) -> bool, n: nat)
    requires n <= |right|
    ensures |JoinRow(l, right[..n], keep)| <= |JoinRow(l, right, keep)|
    decreases |right| - n
  {
    if n == |right| {
      assert right[..n] == right;
    } else {
      JoinRowSnoc(l, right, keep, n);
      JoinRowGrows(l, right, keep, n + 1);
    }
  }

  lemma {:induction false} JoinByGrows(left: seq<Row>, right: seq<Row>, keep: (Row, Row) -> bool, n: nat)
    requires n <= |left|
    ensures |JoinBy(left[..n], right, keep)| <= |JoinBy(left, right, keep)|
    decreases |left| - n
  {
    if n == |left| {
      assert left[..n] == left;
    } else {
      JoinBySnoc(left, right, keep, n);
      JoinByGrows(left, right, keep, n + 1);
    }
  }

  method CrossProduct(left: seq<Row>, right: seq<Row>) returns (r: Option<seq<Row>>)
    ensures r == Within(Cross(left, right), INTERMEDIATE_ROWS_BUDGET)
  {
    ghost var keep := (l: Row, r: Row) => true;
    var out: seq<Row> := [];
    for i := 0 to |left|
      invariant out == JoinBy(left[..i], right, keep) && |out| <= INTERMEDIATE_ROWS_BUDGET
    {
      ghost var before := out;
      JoinBySnoc(left, right, keep, i);
      JoinByGrows(left, right, keep, i + 1);
      for j := 0 to |right|
        invariant out == before + JoinRow(left[i], right[..j], keep) && |out| <= INTERMEDIATE_ROWS_BUDGET
      {
        JoinRowSnoc(left[i], right, keep, j);
        JoinRowGrows(left[i], right, keep, j + 1);
        if |out| >= INTERMEDIATE_ROWS_BUDGET {
          return None;
        }
        out := out + [left[i] + right[j]];
      }
      assert right[..|right|] == right;
    }
    assert left[..|left|] == left;
    r := Some(out);
  }

  // ---------------------------------------------------------------- hash join

  /** The key under which a row is indexed; NULL and missing values have none. */
  function IndexKey(row: Row, rkey: string): Option<HashKey> {
    var v := RowGet(row, rkey);
    if v.Some? && !v.value.Null? then Some(HashKeyOf(v.value)) else None
  }

  function KeyUnder(rkey: string): Row -> Option<HashKey> {
    row => IndexKey(row, rkey)
  }

  ghost function KeysBy(right: seq<Row>, keyOf: Row -> Option<HashKey>): (keys: seq<Option<HashKey>>)
    ensures |keys| == |right|
    ensures forall i {:trigger keys[i]} :: 0 <= i < |right| ==> keys[i] == keyOf(right[i])
  {
    seq(|right|, i requires 0 <= i < |right| => keyOf(right[i]))
  }

  ghost function IndexKeys(right: seq<Row>, rkey: string): (keys: seq<Option<HashKey>>)
    ensures |keys| == |right|
  {
    KeysBy(right, KeyUnder(rkey))
  }

  /** The positions below n of a key, in order. */
  ghost function Positions(keys: seq<Option<HashKey>>, k: HashKey, n: nat): (r: seq<nat>)
    requires n <= |keys|
    ensures forall i :: 0 <= i < |r| ==> r[i] < n
  {
    if n == 0 then []
    else Positions(keys, k, n - 1) + (if keys[n - 1] == Some(k) then [n - 1] else [])
  }

  function Bucket(index: map<HashKey, seq<nat>>, k: HashKey): seq<nat> {
    if k in index then index[k] else []
  }

  function Appended(l: Row, right: seq<Row>, positions: seq<nat>): seq<Row>
    requires forall i :: 0 <= i < |positions| ==> positions[i] < |right|
  {
    if positions == [] then []
    else Appended(l, right, positions[..|positions| - 1]) + [l + right[positions[|positions| - 1]]]
  }

  /** The positions of the rows that a condition joins with the left row. */
  function Chosen(l: Row, right: seq<Row>, keep: (Row, Row) -> bool, n: nat): (r: seq<nat>)
    requires n <= |right|
    ensures forall i :: 0 <= i < |r| ==> r[i] < n
  {
    if n == 0 then []
    else Chosen(l, right, keep, n - 1) + (if keep(l, right[n - 1]) then [n - 1] else [])
  }

  /** A right row is in the bucket of the left row's key exactly when the two match. */
  lemma BucketIsChosen(l: Row, right: seq<Row>, lkey: string, rkey: string, n: nat)
    requires n <= |right| && RowGet(l, lkey).Some?
    ensures Positions(IndexKeys(right, rkey), HashKeyOf(RowGet(l, lkey).value), n) ==
            Chosen(l, right, (l, r) => HashMatch(l, r, lkey, rkey), n)
  {
    var keys, k := IndexKeys(right, rkey), HashKeyOf(RowGet(l, lkey).value);
    forall i | 0 <= i < n
      ensures HashMatch(l, right[i], lkey, rkey) <==> keys[i] == Some(k)
    {
      MatchIsKey(l, right[i], lkey, rkey);
    }
    PositionsAreChosen(keys, k, l, right, (l, r) => HashMatch(l, r, lkey, rkey), n);
  }

  lemma {:induction false} PositionsAreChosen(
      keys: seq<Option<HashKey>>, k: HashKey, l: Row, right: seq<Row>, keep: (Row, Row) -> bool, n: nat)
    requires n <= |right| == |keys| && forall i :: 0 <= i < n ==> (keep(l, right[i]) <==> keys[i] == Some(k))
    ensures Positions(keys, k, n) == Chosen(l, right, keep, n)
  {
    if n > 0 {
      PositionsAreChosen(keys, k, l, right, keep, n - 1);
    }
  }

  lemma MatchIsKey(l: Row, r: Row, lkey: string, rkey: string)
    requires RowGet(l, lkey).Some?
    ensures HashMatch(l, r, lkey, rkey) <==> IndexKey(r, rkey) == Some(HashKeyOf(RowGet(l, lkey).value))
  {
  }

  lemma AppendedSnoc(l: Row, right: seq<Row>, positions: seq<nat>, p: nat)
    requires p < |right| && forall i :: 0 <= i < |positions| ==> positions[i] < |right|
    ensures Appended(l, right, positions + [p]) == Appended(l, right, positions) + [l + right[p]]
  {
    assert (positions + [p])[..|positions|] == positions;
  }

  lemma {:induction false} ChosenJoins(l: Row, right: seq<Row>, keep: (Row, Row) -> bool, n: nat)
    requires n <= |right|
    ensures Appended(l, right, Chosen(l, right, keep, n)) == JoinRow(l, right[..n], keep)
  {
    if n > 0 {
      var before := Chosen(l, right, keep, n - 1);
      ChosenJoins(l, right, keep, n - 1);
      JoinRowSnoc(l, right, keep, n - 1);
      AppendedSnoc(l, right, before, n - 1);
      assert before + [] == before;
    }
  }

  lemma BucketJoins(l: Row, right: seq<Row>, lkey: string, rkey: string, n: nat)
    requires n <= |right| && RowGet(l, lkey).Some?
    ensures Appended(l, right, Positions(IndexKeys(right, rkey), HashKeyOf(RowGet(l, lkey).value), n)) ==
              JoinRow(l, right[..n], (l, r) => HashMatch(l, r, lkey, rkey))
  {
    BucketIsChosen(l, right, lkey, rkey, n);
    ChosenJoins(l, right, (l, r) => HashMatch(l, r, lkey, rkey), n);
  }

  lemma {:induction false} NoKeyNoRows(l: Row, right: seq<Row>, lkey: string, rkey: string)
    requires RowGet(l, lkey).None?
    ensures JoinRow(l, right, (l, r) => HashMatch(l, r, lkey, rkey)) == []
  {
    if right != [] {
      NoKeyNoRows(l, right[1..], lkey, rkey);
    }
  }

  method BuildIndex(right: seq<Row>, rkey: string) returns (index: map<HashKey, seq<nat>>)
    ensures Buckets(index, IndexKeys(right, rkey), |right|)
  {
    index := IndexRows(right, KeyUnder(rkey));
  }

  method IndexRows(right: seq<Row>, keyOf: Row -> Option<HashKey>) returns (index: map<HashKey, seq<nat>>)
    ensures Buckets(index, KeysBy(right, keyOf), |right|)
  {
    index := map[];
    ghost var keys := KeysBy(right, keyOf);
    for i := 0 to |right|
      invariant Buckets(index, keys, i)
    {
      assert keys[i] == keyOf(right[i]);
      BucketsNext(index, keys, i);
      index := Pushed(index, keyOf(right[i]), i);
    }
  }

  /** The position goes to the end of its key's bucket. */
  function Pushed(index: map<HashKey, seq<nat>>, key: Option<HashKey>, i: nat): map<HashKey, seq<nat>> {
    if key.Some? then index[key.value := Bucket(index, key.value) + [i]] else index
  }

  ghost predicate Buckets(index: map<HashKey, seq<nat>>, keys: seq<Option<HashKey>>, n: nat)
    requires n <= |keys|
  {
    forall k {:trigger Bucket(index, k)} :: Bucket(index, k) == Positions(keys, k, n)
  }

  lemma BucketsNext(index: map<HashKey, seq<nat>>, keys: seq<Option<HashKey>>, i: nat)
    requires i < |keys| && Buckets(index, keys, i)
    ensures Buckets(Pushed(index, keys[i], i), keys, i + 1)
  {
    forall k
      ensures Bucket(Pushed(index, keys[i], i), k) == Positions(keys, k, i + 1)
    {
      assert Bucket(index, k) == Positions(keys, k, i);
    }
  }

  method HashJoinKeyed(left: seq<Row>, right: seq<Row>, lkey: string, rkey: string) returns (r: Option<seq<Row>>)
    ensures r == Within(HashJoin(left, right, lkey, rkey), INTERMEDIATE_ROWS_BUDGET)
  {
    var index := BuildIndex(right, rkey);
    var probe := Probe(index, lkey);
    forall l
      ensures Finds(l, right, probe(l), (l, r) => HashMatch(l, r, lkey, rkey))
    {
      ProbeFinds(l, right, lkey, rkey, index);
    }
    r := ProbeAll(left, right, probe, (l, r) => HashMatch(l, r, lkey, rkey));
  }

  /** The bucket of a left row's key. */
  function Probe(index: map<HashKey, seq<nat>>, lkey: string): Row -> seq<nat> {
    l => var v := RowGet(l, lkey); if v.Some? then Bucket(index, HashKeyOf(v.value)) else []
  }

  /** These positions are those of the right rows that join with `l`. */
  ghost predicate Finds(l: Row, right: seq<Row>, positions: seq<nat>, keep: (Row, Row) -> bool) {
    && (forall i :: 0 <= i < |positions| ==> positions[i] < |right|)
    && Appended(l, right, positions) == JoinRow(l, right, keep)
  }

  lemma ProbeFinds(l: Row, right: seq<Row>, lkey: string, rkey: string, index: map<HashKey, seq<nat>>)
    requires Buckets(index, IndexKeys(right, rkey), |right|)
    ensures Finds(l, right, Probe(index, lkey)(l), (l, r) => HashMatch(l, r, lkey, rkey))
  {
    if RowGet(l, lkey).Some? {
      var k := HashKeyOf(RowGet(l, lkey).value);
      assert Bucket(index, k) == Positions(IndexKeys(right, rkey), k, |right|);
      BucketJoins(l, right, lkey, rkey, |right|);
      assert right[..|right|] == right;
    } else {
      NoKeyNoRows(l, right, lkey, rkey);
    }
  }

  method ProbeAll(left: seq<Row>, right: seq<Row>, probe: Row -> seq<nat>, ghost keep: (Row, Row) -> bool)
    returns (r: Option<seq<Row>>)
    requires forall l :: Finds(l, right, probe(l), keep)
    ensures r == Within(JoinBy(left, right, keep), INTERMEDIATE_ROWS_BUDGET)
  {
    var out: seq<Row> := [];
    for i := 0 to |left|
      invariant out == JoinBy(left[..i], right, keep) && |out| <= INTERMEDIATE_ROWS_BUDGET
    {
      JoinBySnoc(left, right, keep, i);
      JoinByGrows(left, right, keep, i + 1);
      assert Finds(left[i], right, probe(left[i]), keep);
      var more := AppendAll(left[i], right, probe(left[i]), out);
      if more.None? {
        return None;
      }
      out := more.value;
    }
    assert left[..|left|] == left;
    r := Some(out);
  }

  lemma {:induction false} AppendedGrows(l: Row, right: seq<Row>, positions: seq<nat>, n: nat)
    requires n <= |positions| && forall i :: 0 <= i < |positions| ==> positions[i] < |right|
    ensures |Appended(l, right, positions[..n])| == n
  {
    if n > 0 {
      AppendedGrows(l, right, positions, n - 1);
      assert positions[..n][..n - 1] == positions[..n - 1];
    }
  }

  method AppendAll(l: Row, right: seq<Row>, positions: seq<nat>, out: seq<Row>) returns (r: Option<seq<Row>>)
    requires |out| <= INTERMEDIATE_ROWS_BUDGET
    requires forall i :: 0 <= i < |positions| ==> positions[i] < |right|
    ensures r == Within(out + Appended(l, right, positions), INTERMEDIATE_ROWS_BUDGET)
  {
    var rows := out;
    AppendedGrows(l, right, positions, |positions|);
    assert positions[..|positions|] == positions;
    for i := 0 to |positions|
      invariant rows == out + Appended(l, right, positions[..i]) && |rows| <= INTERMEDIATE_ROWS_BUDGET
    {
      AppendedGrows(l, right, positions, i);
      assert positions[..i + 1][..i] == positions[..i];
      if |rows| >= INTERMEDIATE_ROWS_BUDGET {
        return None;
      }
      rows := rows + [l + right[positions[i]]];
    }
    r := Some(rows);
  }

  // ---------------------------------------------------------------- filters

  lemma {:induction false} PickJoins(a: seq<Row>, b: seq<Row>, keep: Row -> bool)
    ensures Pick(a + b, keep) == Pick(a, keep) + Pick(b, keep)
  {
    if a == [] {
      assert a + b == b;
    } else {
      PickJoins(a[1..], b, keep);
      assert (a + b)[1..] == a[1..] + b;
    }
  }

  lemma PickSnoc(rows: seq<Row>, keep: Row -> bool, n: nat)
    requires n < |rows|
    ensures Pick(rows[..n + 1], keep) == Pick(rows[..n], keep) + (if keep(rows[n]) then [rows[n]] else [])
  {
    assert rows[..n + 1] == rows[..n] + [rows[n]];
    PickJoins(rows[..n], [rows[n]], keep);
    assert [rows[n]][1..] == [];
  }

  /** `retain` with a condition. */
  method Retain(rows: seq<Row>, e: Expr, w: World) returns (out: seq<Row>)
    ensures out == Filter(e, rows, w)
  {
    out := [];
    for i := 0 to |rows|
      invariant out == Filter(e, rows[..i], w)
    {
      PickSnoc(rows, Passing(e, w), i);
      if Passes(e, rows[i], w) {
        out := out + [rows[i]];
      }
    }
    assert rows[..|rows|] == rows;
  }

  method ApplySingleTablePredicates(rows: seq<Row>, where_: Option<Expr>, w: World) returns (out: seq<Row>)
    ensures out == PushDownIf(rows, where_, w)
  {
    out := rows;
    if rows == [] || where_.None? {
      return;
    }
    var conjuncts := Conjuncts(where_.value);
    var i := 0;
    assert conjuncts[0..] == conjuncts;
    while i < |conjuncts| && out != []
      invariant 0 <= i <= |conjuncts|
      invariant PushDown(out, conjuncts[i..], w) == PushDown(rows, conjuncts, w)
    {
      assert conjuncts[i..][1..] == conjuncts[i + 1..];
      if RefsOnly(conjuncts[i], Names(out[0])) {
        out := Retain(out, conjuncts[i], w);
      }
      i := i + 1;
    }
  }

  // ---------------------------------------------------------------- FROM and WHERE

  method SearchJoinKey(left: seq<string>, right: seq<string>, pairs: seq<(string, string)>)
    returns (key: Option<(string, string)>)
    ensures key == FindJoinKey(left, right, pairs)
  {
    assert pairs[0..] == pairs;
    for i := 0 to |pairs|
      invariant FindJoinKey(left, right, pairs[i..]) == FindJoinKey(left, right, pairs)
    {
      assert pairs[i..][1..] == pairs[i + 1..];
      var (a, b) := pairs[i];
      var la, rb := FirstMatching(left, a), FirstMatching(right, b);
      if la.Some? && rb.Some? {
        return Some((left[la.value], right[rb.value]));
      }
      var lb, ra := FirstMatching(left, b), FirstMatching(right, a);
      if lb.Some? && ra.Some? {
        return Some((left[lb.value], right[ra.value]));
      }
    }
    key := None;
  }

  method JoinNext(left: seq<Row>, right: seq<Row>, pairs: seq<(string, string)>) returns (r: Option<seq<Row>>)
    ensures r == Extend(left, right, pairs)
  {
    var key := SearchJoinKey(ColumnsOf(left), ColumnsOf(right), pairs);
    if key.Some? {
      r := HashJoinKeyed(left, right, key.value.0, key.value.1);
    } else if |left| * |right| > CROSS_JOIN_BUDGET {
      r := None;
    } else {
      r := CrossProduct(left, right);
    }
  }

  method TakeSource(left: seq<Row>, first: bool, src: Source, where_: Option<Expr>, w: World)
    returns (r: Option<seq<Row>>)
    ensures r == JoinSource(left, first, src, where_, w)
  {
    var next := ApplySingleTablePredicates(src.rows, where_, w);
    if first {
      return Some(next);
    }
    r := JoinNext(left, next, PairsOf(if src.Comma? then where_ else src.on, w));
    if r.Some? && src.Inner? && src.on.Some? {
      var kept := Retain(r.value, src.on.value, w);
      r := Some(kept);
    }
  }

  /** What the rounds from the i-th on make of the rows so far. */
  datatype Rest = Rest(of: (seq<Row>, nat) -> Option<seq<Row>>)

  ghost predicate IsRest(rest: Rest, sources: seq<Source>, where_: Option<Expr>, w: World) {
    forall left, i {:trigger ResolveRest(left, sources, i, where_, w)} ::
      0 <= i <= |sources| ==> rest.of(left, i) == ResolveRest(left, sources, i, where_, w)
  }

  method Round(left: seq<Row>, sources: seq<Source>, i: nat, where_: Option<Expr>, w: World, ghost rest: Rest)
    returns (r: Option<seq<Row>>)
    requires i < |sources| && IsRest(rest, sources, where_, w)
    ensures rest.of(left, i) == if r.None? then None else rest.of(r.value, i + 1)
  {
    r := TakeSource(left, i == 0, sources[i], where_, w);
    RoundResolves(left, sources, i, where_, w, r);
    if r.Some? {
      assert rest.of(r.value, i + 1) == ResolveRest(r.value, sources, i + 1, where_, w);
    }
  }

  lemma RoundResolves(
      left: seq<Row>, sources: seq<Source>, i: nat, where_: Option<Expr>, w: World, r: Option<seq<Row>>)
    requires i < |sources| && r == JoinSource(left, i == 0, sources[i], where_, w)
    ensures ResolveRest(left, sources, i, where_, w) ==
              if r.None? then None else ResolveRest(r.value, sources, i + 1, where_, w)
  {
  }

  lemma NothingToResolve(left: seq<Row>, sources: seq<Source>, where_: Option<Expr>, w: World, rest: Rest)
    requires IsRest(rest, sources, where_, w)
    ensures rest.of(left, |sources|) == Some(left)
  {
    assert ResolveRest(left, sources, |sources|, where_, w) == Some(left);
  }

  method ResolveFrom(sources: seq<Source>, where_: Option<Expr>, w: World) returns (r: Option<seq<Row>>)
    ensures r == Resolve(sources, where_, w)
  {
    ghost var rest := RestOf(sources, where_, w);
    r := Rounds(sources, where_, w, rest);
    RestResolves(sources, where_, w);
  }

  ghost function RestOf(sources: seq<Source>, where_: Option<Expr>, w: World): (rest: Rest)
    ensures IsRest(rest, sources, where_, w)
  {
    Rest((left: seq<Row>, i: nat) => if i <= |sources| then ResolveRest(left, sources, i, where_, w) else None)
  }

  lemma RestResolves(sources: seq<Source>, where_: Option<Expr>, w: World)
    ensures RestOf(sources, where_, w).of([[]], 0) == Resolve(sources, where_, w)
  {
  }

  method Rounds(sources: seq<Source>, where_: Option<Expr>, w: World, ghost rest: Rest)
    returns (r: Option<seq<Row>>)
    requires IsRest(rest, sources, where_, w)
    ensures r == rest.of([[]], 0)
  {
    var result: seq<Row> := [[]];
    for i := 0 to |sources|
      invariant rest.of(result, i) == rest.of([[]], 0)
    {
      var next := Round(result, sources, i, where_, w, rest);
      if next.None? {
        return None;
      }
      result := next.value;
    }
    NothingToResolve(result, sources, where_, w, rest);
    r := Some(result);
  }

  /** The executor as a whole: for suitable queries it returns the filtered product without
      exactly the lost rows, unless a row budget stops it. */
  method Select(sources: seq<Source>, where_: Option<Expr>, w: World) returns (r: Option<seq<Row>>)
    ensures r == SelectRows(sources, where_, w)
    ensures r.Some? && Suitable(sources, where_, w) ==>
              r.value == Pick(Meaning(sources, where_, w), row => !Lost(row, sources, where_, w))
  {
    var rows := ResolveFrom(sources, where_, w);
    if rows.None? {
      return None;
    }
    var out := rows.value;
    if where_.Some? {
      out := Retain(out, where_.value, w);
    }
    if Suitable(sources, where_, w) {
      PipelineMeansProductWithoutLost(sources, where_, w);
    }
    r := Some(out);
  }
}
