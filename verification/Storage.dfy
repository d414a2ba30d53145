/** The data column family at the level of bytes: rows are stored under
    `table ++ primary key ++ stamp`, sorted as byte strings, and read by seeking backwards
    and checking the prefix. */
module Storage {
  import opened Base
  import opened Wire
  import opened Versions

  type Column = map<Bytes, Bytes>

  function Prefix(row: RowKey): Bytes {
    BigEndian(row.table, 4) + row.pk
  }

  function Encode(vk: VersionKey): Bytes {
    Prefix(vk.row) + BigEndian(vk.stamp, 8)
  }

  predicate InRange(vk: VersionKey) {
    vk.row.table < U32_LIMIT && vk.stamp < U64_LIMIT
  }

  predicate StartsWith(k: Bytes, p: Bytes) {
    |p| <= |k| && k[..|p|] == p
  }

  /** The column holds exactly the versions of the store, under their encoded keys. */
  ghost predicate Holds(data: Column, s: Store) {
    && (forall vk :: vk in s ==> InRange(vk) && Encode(vk) in data && data[Encode(vk)] == s[vk])
    && (forall k :: k in data ==> exists vk :: vk in s && Encode(vk) == k)
  }

  lemma EncodeInjective(a: VersionKey, b: VersionKey)
    requires InRange(a) && InRange(b) && Encode(a) == Encode(b)
    ensures a == b
  {
    var k := Encode(a);
    Pow256Values();
    assert k[..4] == BigEndian(a.row.table, 4) == BigEndian(b.row.table, 4);
    assert k[4..|k| - 8] == a.row.pk == b.row.pk;
    assert k[|k| - 8..] == BigEndian(a.stamp, 8) == BigEndian(b.stamp, 8);
    BigEndianRoundTrip(a.row.table, 4);
    BigEndianRoundTrip(b.row.table, 4);
    BigEndianRoundTrip(a.stamp, 8);
    BigEndianRoundTrip(b.stamp, 8);
  }

  // ---------------------------------------------------------------- the seek and the reads

  ghost predicate IsLastAtMost(data: Column, seek: Bytes, r: Option<Bytes>) {
    match r
    case Some(k) => k in data && LexAtMost(k, seek) && forall j :: j in data && LexAtMost(j, seek) ==> LexAtMost(j, k)
    case None => forall j :: j in data ==> !LexAtMost(j, seek)
  }

  /** `seek_for_prev`: the largest key at or below `seek`. */
  method SeekForPrev(data: Column, seek: Bytes) returns (r: Option<Bytes>)
    ensures IsLastAtMost(data, seek, r)
  {
    r := None;
    var todo := data.Keys;
    while todo != {}
      invariant todo <= data.Keys
      invariant r.Some? ==> r.value in data && LexAtMost(r.value, seek)
      invariant forall j :: j in data.Keys - todo && LexAtMost(j, seek) ==> r.Some? && LexAtMost(j, r.value)
      decreases todo
    {
      var k :| k in todo;
      todo := todo - {k};
      if LexAtMost(k, seek) {
        LexRefl(k);
        if r.None? {
          r := Some(k);
        } else if LexAtMost(r.value, k) {
          forall j | j in data.Keys - todo && LexAtMost(j, seek)
            ensures LexAtMost(j, k)
          {
            if j != k {
              LexTrans(j, r.value, k);
            }
          }
          r := Some(k);
        } else {
          LexTotal(r.value, k);
        }
      }
    }
  }

  /** The value a snapshot sees; when some key intrudes, another row's value instead. */
  method ReadLatest(data: Column, row: RowKey, at: nat, ghost s: Store) returns (r: Option<Bytes>)
    requires Holds(data, s) && row.table < U32_LIMIT && at < U64_LIMIT
    ensures !(exists k :: Intrudes(data, s, row, at, k)) ==> r == Read(s, row, at)
    ensures (exists k :: Intrudes(data, s, row, at, k)) ==>
              exists k :: Intrudes(data, s, row, at, k) && r == Some(data[k])
  {
    var p := SeekForPrev(data, Encode(VersionKey(row, at)));
    LocatedIff(data, s, row, at, p);
    if p.Some? && StartsWith(p.value, Prefix(row)) {
      r := Some(data[p.value]);
    } else {
      r := None;
    }
  }

  /** The stamp the conflict check compares with: the last eight bytes of the located key. */
  method LatestVisibleTsAny(data: Column, row: RowKey, ghost s: Store) returns (r: Option<nat>)
    requires Holds(data, s) && row.table < U32_LIMIT
    ensures !(exists k :: Intrudes(data, s, row, U64_MAX, k)) ==> r == Newest(s, row, U64_MAX)
    ensures (exists k :: Intrudes(data, s, row, U64_MAX, k)) ==>
              exists vk :: vk in s && vk.row != row && Intrudes(data, s, row, U64_MAX, Encode(vk)) &&
                r == Some(vk.stamp)
  {
    var p := SeekForPrev(data, Encode(VersionKey(row, U64_MAX)));
    LocatedIff(data, s, row, U64_MAX, p);
    if p.Some? && StartsWith(p.value, Prefix(row)) && |p.value| >= 8 {
      r := Some(FromBigEndian(p.value[|p.value| - 8..]));
      if exists k :: Intrudes(data, s, row, U64_MAX, k) {
        ghost var vk := IntruderStamp(data, s, row, U64_MAX, p.value);
      } else {
        StampOfKey(VersionKey(row, Newest(s, row, U64_MAX).value));
      }
    } else {
      r := None;
    }
  }

  lemma IntruderStamp(data: Column, s: Store, row: RowKey, at: nat, k: Bytes) returns (vk: VersionKey)
    requires Holds(data, s) && Intrudes(data, s, row, at, k)
    ensures vk in s && vk.row != row && Encode(vk) == k && |k| >= 8 && FromBigEndian(k[|k| - 8..]) == vk.stamp
  {
    vk :| vk in s && Encode(vk) == k;
    StampOfKey(vk);
  }

  lemma StampOfKey(vk: VersionKey)
    requires InRange(vk)
    ensures FromBigEndian(Encode(vk)[|Encode(vk)| - 8..]) == vk.stamp
  {
    assert Encode(vk)[|Encode(vk)| - 8..] == BigEndian(vk.stamp, 8);
    Pow256Values();
    BigEndianRoundTrip(vk.stamp, 8);
  }

  // ---------------------------------------------------------------- when the reads are right

  /** A key of another row that carries this row's prefix and sorts between the newest
      visible version of the row and the seek position. */
  ghost predicate Intrudes(data: Column, s: Store, row: RowKey, at: nat, k: Bytes) {
    && k in data && StartsWith(k, Prefix(row)) && |k| != |Prefix(row)| + 8
    && LexAtMost(k[|Prefix(row)|..], BigEndian(at, 8))
    && (Newest(s, row, at).Some? ==> !LexAtMost(k[|Prefix(row)|..], BigEndian(Newest(s, row, at).value, 8)))
  }

  lemma OwnKey(data: Column, s: Store, row: RowKey, k: Bytes)
    requires Holds(data, s) && row.table < U32_LIMIT
    requires k in data && StartsWith(k, Prefix(row)) && |k| == |Prefix(row)| + 8
    ensures exists t: nat :: VersionKey(row, t) in s && k == Encode(VersionKey(row, t))
  {
    var vk :| vk in s && Encode(vk) == k;
    assert |vk.row.pk| == |row.pk|;
    assert k[..4] == BigEndian(vk.row.table, 4) == BigEndian(row.table, 4);
    assert k[4..|k| - 8] == vk.row.pk == row.pk;
    Pow256Values();
    BigEndianRoundTrip(vk.row.table, 4);
    BigEndianRoundTrip(row.table, 4);
    assert vk == VersionKey(row, vk.stamp);
  }

  lemma KeyOrder(row: RowKey, t: nat, k: Bytes)
    requires StartsWith(k, Prefix(row))
    ensures LexAtMost(k, Encode(VersionKey(row, t))) <==> LexAtMost(k[|Prefix(row)|..], BigEndian(t, 8))
    ensures LexAtMost(Encode(VersionKey(row, t)), k) <==> LexAtMost(BigEndian(t, 8), k[|Prefix(row)|..])
  {
    var p := Prefix(row);
    assert k == p + k[|p|..];
    LexAfterPrefix(p, k[|p|..], BigEndian(t, 8));
    LexAfterPrefix(p, BigEndian(t, 8), k[|p|..]);
  }

  /** The seek lands on the newest visible version of the row, or on no key of its prefix
      when there is none, exactly when no key intrudes. */
  lemma LocatedIff(data: Column, s: Store, row: RowKey, at: nat, p: Option<Bytes>)
    requires Holds(data, s) && row.table < U32_LIMIT && at < U64_LIMIT
    requires IsLastAtMost(data, Encode(VersionKey(row, at)), p)
    ensures var found := p.Some? && StartsWith(p.value, Prefix(row));
            var n := Newest(s, row, at);
            && (!(exists k :: Intrudes(data, s, row, at, k)) <==>
                  if n.Some? then found && p.value == Encode(VersionKey(row, n.value)) else !found)
            && ((exists k :: Intrudes(data, s, row, at, k)) ==> found && Intrudes(data, s, row, at, p.value))
  {
    var n := Newest(s, row, at);
    var seek := Encode(VersionKey(row, at));
    if k :| Intrudes(data, s, row, at, k) {
      KeyOrder(row, at, k);
      assert LexAtMost(k, seek) && LexAtMost(k, p.value);
      BetweenHasPrefix(Prefix(row), k, p.value, seek);
      KeyOrder(row, at, p.value);
      if n.Some? {
        KeyOrder(row, n.value, k);
        KeyOrder(row, n.value, p.value);
        if LexAtMost(p.value, Encode(VersionKey(row, n.value))) {
          LexTrans(k, p.value, Encode(VersionKey(row, n.value)));
        }
      }
      if |p.value| == |Prefix(row)| + 8 {
        OwnBelowNewest(data, s, row, at, p.value);
      }
    } else {
      if n.Some? {
        NewestIsLocated(data, s, row, at, p);
      } else if p.Some? && StartsWith(p.value, Prefix(row)) {
        KeyOrder(row, at, p.value);
        assert !Intrudes(data, s, row, at, p.value);
        OwnBelowNewest(data, s, row, at, p.value);
      }
    }
  }

  /** Keys of the row itself that lie below the seek are versions up to the newest one. */
  lemma OwnBelowNewest(data: Column, s: Store, row: RowKey, at: nat, k: Bytes)
    requires Holds(data, s) && row.table < U32_LIMIT && at < U64_LIMIT
    requires k in data && StartsWith(k, Prefix(row)) && |k| == |Prefix(row)| + 8
    requires LexAtMost(k, Encode(VersionKey(row, at)))
    ensures Newest(s, row, at).Some? && LexAtMost(k, Encode(VersionKey(row, Newest(s, row, at).value)))
  {
    OwnKey(data, s, row, k);
    var t: nat :| VersionKey(row, t) in s && k == Encode(VersionKey(row, t));
    assert InRange(VersionKey(row, t));
    KeyOrder(row, at, k);
    Pow256Values();
    assert k[|Prefix(row)|..] == BigEndian(t, 8);
    BigEndianOrder(t, at, 8);
    var n := Newest(s, row, at);
    assert n.Some? && t <= n.value;
    assert InRange(VersionKey(row, n.value));
    BigEndianOrder(t, n.value, 8);
    KeyOrder(row, n.value, k);
  }

  lemma NewestIsLocated(data: Column, s: Store, row: RowKey, at: nat, p: Option<Bytes>)
    requires Holds(data, s) && row.table < U32_LIMIT && at < U64_LIMIT
    requires IsLastAtMost(data, Encode(VersionKey(row, at)), p)
    requires Newest(s, row, at).Some? && !exists k :: Intrudes(data, s, row, at, k)
    ensures p == Some(Encode(VersionKey(row, Newest(s, row, at).value)))
  {
    var n := Newest(s, row, at).value;
    var key := Encode(VersionKey(row, n));
    assert InRange(VersionKey(row, n));
    Pow256Values();
    BigEndianOrder(n, at, 8);
    assert StartsWith(key, Prefix(row)) && key[|Prefix(row)|..] == BigEndian(n, 8);
    KeyOrder(row, at, key);
    assert LexAtMost(key, p.value);
    BetweenHasPrefix(Prefix(row), key, p.value, Encode(VersionKey(row, at)));
    KeyOrder(row, at, p.value);
    KeyOrder(row, n, p.value);
    assert !Intrudes(data, s, row, at, p.value);
    if |p.value| == |Prefix(row)| + 8 {
      OwnBelowNewest(data, s, row, at, p.value);
    }
    LexAntisym(key, p.value);
  }

  /** Between two strings with a common prefix, every string has that prefix. */
  lemma {:induction false} BetweenHasPrefix(p: Bytes, a: Bytes, k: Bytes, b: Bytes)
    requires StartsWith(a, p) && StartsWith(b, p) && LexAtMost(a, k) && LexAtMost(k, b)
    ensures StartsWith(k, p)
  {
    if p != [] {
      assert a[0] == p[0] == b[0] == k[0];
      assert a[1..][..|p| - 1] == p[1..] && b[1..][..|p| - 1] == p[1..];
      BetweenHasPrefix(p[1..], a[1..], k[1..], b[1..]);
      assert k[..|p|] == [k[0]] + k[1..][..|p| - 1];
      assert p == [p[0]] + p[1..];
    }
  }

  /** Tables whose primary keys all have one width, as the SQL front end generates them,
      are read correctly at every snapshot. */
  lemma FixedWidthKeysNeverIntrude(data: Column, s: Store, row: RowKey, at: nat, k: Bytes)
    requires Holds(data, s) && row.table < U32_LIMIT
    requires forall vk :: vk in s && vk.row.table == row.table ==> |vk.row.pk| == |row.pk|
    ensures !Intrudes(data, s, row, at, k)
  {
    if Intrudes(data, s, row, at, k) {
      var vk :| vk in s && Encode(vk) == k;
      assert k[..4] == BigEndian(vk.row.table, 4) == BigEndian(row.table, 4) by {
        assert Prefix(row)[..4] == k[..|Prefix(row)|][..4] == k[..4];
      }
      Pow256Values();
      BigEndianRoundTrip(vk.row.table, 4);
      BigEndianRoundTrip(row.table, 4);
    }
  }

  lemma {:induction false} LexExtended(a: Bytes, z: Bytes, b: Bytes)
    requires |a| == |b| && LexAtMost(a, b) && z != []
    ensures LexAtMost(a + z, b) <==> a != b
  {
    if a == [] {
      assert a + z == z && a == b;
    } else {
      assert (a + z)[1..] == a[1..] + z;
      if a[0] == b[0] {
        LexExtended(a[1..], z, b[1..]);
        assert a == [a[0]] + a[1..] && b == [b[0]] + b[1..];
      }
    }
  }

  /** Variable-width primary keys are not read correctly. A row whose key continues another
      row's key with the eight bytes of its newest stamp hides that version from every later
      snapshot, and from the conflict check. */
  lemma LongerKeyIntrudes(data: Column, s: Store, row: RowKey, n: nat, at: nat, t: nat)
    requires Holds(data, s) && Newest(s, row, at) == Some(n) && n < at < U64_LIMIT
    requires VersionKey(RowKey(row.table, row.pk + BigEndian(n, 8)), t) in s
    ensures Intrudes(data, s, row, at, Encode(VersionKey(RowKey(row.table, row.pk + BigEndian(n, 8)), t)))
  {
    LongerKey(row, BigEndian(n, 8), t);
    LongerTail(n, at, t);
  }

  lemma LongerKey(row: RowKey, e: Bytes, t: nat)
    ensures var k := Encode(VersionKey(RowKey(row.table, row.pk + e), t));
            StartsWith(k, Prefix(row)) && |k| == |Prefix(row)| + |e| + 8 && k[|Prefix(row)|..] == e + BigEndian(t, 8)
  {
    var p := Prefix(row);
    assert Encode(VersionKey(RowKey(row.table, row.pk + e), t)) == p + (e + BigEndian(t, 8));
  }

  lemma LongerTail(n: nat, at: nat, t: nat)
    requires n < at < U64_LIMIT
    ensures LexAtMost(BigEndian(n, 8) + BigEndian(t, 8), BigEndian(at, 8))
    ensures !LexAtMost(BigEndian(n, 8) + BigEndian(t, 8), BigEndian(n, 8))
  {
    var e := BigEndian(n, 8);
    Pow256Values();
    BigEndianOrder(n, at, 8);
    BigEndianRoundTrip(n, 8);
    BigEndianRoundTrip(at, 8);
    LexExtended(e, BigEndian(t, 8), BigEndian(at, 8));
    LexRefl(e);
    LexExtended(e, BigEndian(t, 8), e);
  }
}
