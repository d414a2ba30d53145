/** The hybrid logical clock: timestamps, their `u64` encoding, the clock and its runs. */
module Hlc {
  import opened Base

  type u16 = x: int | 0 <= x < 0x1_0000

  /** Wall readings at or above this bound do not fit the 48 bits kept by the encoding. */
  const WALL_LIMIT: nat := 0x1_0000_0000_0000
  const LOGICAL_MAX: u16 := 0xFFFF

  datatype Timestamp = Timestamp(wallMs: nat, logical: u16)

  const ZERO := Timestamp(0, 0)
  const MAX := Timestamp(WALL_LIMIT - 1, LOGICAL_MAX)

  predicate Less(a: Timestamp, b: Timestamp) {
    a.wallMs < b.wallMs || (a.wallMs == b.wallMs && a.logical < b.logical)
  }

  predicate AtMost(a: Timestamp, b: Timestamp) {
    a == b || Less(a, b)
  }

  predicate Fits(t: Timestamp) {
    t.wallMs < WALL_LIMIT
  }

  /** `wall << 16 | logical` on 64 bits: the shift drops the wall bits above 48. */
  function ToU64(t: Timestamp): (v: nat)
    ensures v < U64_LIMIT
  {
    (t.wallMs * 0x1_0000) % U64_LIMIT + t.logical
  }

  function FromU64(v: nat): Timestamp {
    Timestamp(v / 0x1_0000, v % 0x1_0000)
  }

  lemma ToU64OfFitting(t: Timestamp)
    requires Fits(t)
    ensures ToU64(t) == t.wallMs * 0x1_0000 + t.logical
  {
  }

  /** The encoding can be undone exactly for the readings below 2^48 ms. */
  lemma RoundTripIff(t: Timestamp)
    ensures FromU64(ToU64(t)) == t <==> Fits(t)
  {
    if Fits(t) {
      ToU64OfFitting(t);
    }
  }

  lemma DecodeThenEncode(v: nat)
    requires v < U64_LIMIT
    ensures Fits(FromU64(v)) && ToU64(FromU64(v)) == v
  {
  }

  /** Below 2^48 ms, comparing encodings is comparing timestamps. */
  lemma EncodingPreservesOrder(a: Timestamp, b: Timestamp)
    requires Fits(a) && Fits(b)
    ensures ToU64(a) < ToU64(b) <==> Less(a, b)
    ensures ToU64(a) == ToU64(b) <==> a == b
  {
    ToU64OfFitting(a);
    ToU64OfFitting(b);
  }

  // ---------------------------------------------------------------- the clock

  function Advance(cur: Timestamp, wall: nat): (next: Timestamp)
    ensures Less(cur, next) && wall <= next.wallMs
  {
    if wall > cur.wallMs then Timestamp(wall, 0)
    else if cur.logical == LOGICAL_MAX then Timestamp(cur.wallMs + 1, 0)
    else Timestamp(cur.wallMs, cur.logical + 1)
  }

  function SaturatingNext(x: u16): u16 {
    if x == LOGICAL_MAX then LOGICAL_MAX else x + 1
  }

  function Larger(x: u16, y: u16): u16 {
    if x < y then y else x
  }

  /** The stored timestamp after an accepted `update`. */
  function Merge(cur: Timestamp, wall: nat, remote: Timestamp): Timestamp {
    var next := Advance(Advance(cur, wall), remote.wallMs);
    if next.wallMs == remote.wallMs
    then next.(logical := SaturatingNext(Larger(next.logical, remote.logical)))
    else next
  }

  datatype Event =
    | Ticked(wall: nat)
    | Updated(wall: nat, remote: Timestamp)
    | Observed(committed: Timestamp)

  predicate SkewTooLarge(maxSkewMs: nat, e: Event) {
    e.Updated? && e.remote.wallMs > e.wall + maxSkewMs
  }

  function Step(cur: Timestamp, maxSkewMs: nat, e: Event): Timestamp {
    match e
    case Ticked(wall) => Advance(cur, wall)
    case Updated(wall, remote) =>
      if SkewTooLarge(maxSkewMs, e) then cur else Merge(cur, wall, remote)
    case Observed(committed) => if Less(cur, committed) then committed else cur
  }

  /** Events that hand out a fresh timestamp (a refused update hands out none). */
  predicate Issues(maxSkewMs: nat, e: Event) {
    e.Ticked? || (e.Updated? && !SkewTooLarge(maxSkewMs, e))
  }

  class HlcClock {
    var inner: Timestamp
    const maxSkewMs: nat

    constructor (maxSkewMs: nat)
      ensures inner == ZERO && this.maxSkewMs == maxSkewMs
    {
      inner := ZERO;
      this.maxSkewMs := maxSkewMs;
    }

    method Tick(wall: nat) returns (r: Timestamp)
      modifies this
      ensures inner == Step(old(inner), maxSkewMs, Ticked(wall)) && r == inner
      ensures Less(old(inner), r)
    {
      inner := Advance(inner, wall);
      r := inner;
    }

    method ObserveCommitted(committed: Timestamp) returns (r: Timestamp)
      modifies this
      ensures inner == Step(old(inner), maxSkewMs, Observed(committed)) && r == inner
      ensures AtMost(old(inner), r) && AtMost(committed, r)
    {
      if Less(inner, committed) {
        inner := committed;
      }
      r := inner;
    }

    method Update(wall: nat, remote: Timestamp) returns (r: Result<Timestamp, nat>)
      modifies this
      ensures inner == Step(old(inner), maxSkewMs, Updated(wall, remote))
      ensures r.Ok? <==> Issues(maxSkewMs, Updated(wall, remote))
      ensures r.Ok? ==> r.value == inner && Less(old(inner), inner)
      ensures r.Err? ==> r.error == remote.wallMs - wall > maxSkewMs
    {
      if remote.wallMs > wall + maxSkewMs {
        return Err(remote.wallMs - wall);
      }
      inner := Advance(Advance(inner, wall), remote.wallMs);
      if inner.wallMs == remote.wallMs {
        inner := inner.(logical := SaturatingNext(Larger(inner.logical, remote.logical)));
      }
      r := Ok(inner);
    }
  }

  // ---------------------------------------------------------------- runs

  /** The clock after the first `n` events of a run. */
  function After(start: Timestamp, maxSkewMs: nat, events: seq<Event>, n: nat): Timestamp
    requires n <= |events|
  {
    if n == 0 then start
    else Step(After(start, maxSkewMs, events, n - 1), maxSkewMs, events[n - 1])
  }

  lemma {:induction false} NeverGoesBack(
      start: Timestamp, maxSkewMs: nat, events: seq<Event>, m: nat, n: nat)
    requires m <= n <= |events|
    ensures AtMost(After(start, maxSkewMs, events, m), After(start, maxSkewMs, events, n))
    decreases n
  {
    if m < n {
      NeverGoesBack(start, maxSkewMs, events, m, n - 1);
    }
  }

  /** Whatever the wall clock does, fresh timestamps strictly increase along a run. */
  lemma IssuedTimestampsIncrease(
      start: Timestamp, maxSkewMs: nat, events: seq<Event>, i: nat, j: nat)
    requires i < j < |events|
    requires Issues(maxSkewMs, events[i]) && Issues(maxSkewMs, events[j])
    ensures Less(After(start, maxSkewMs, events, i + 1), After(start, maxSkewMs, events, j + 1))
  {
    NeverGoesBack(start, maxSkewMs, events, i + 1, j);
  }

  /** Every fresh timestamp lies above each committed timestamp observed earlier. */
  lemma IssuedAboveObserved(
      start: Timestamp, maxSkewMs: nat, events: seq<Event>, i: nat, j: nat)
    requires i < j < |events|
    requires events[i].Observed? && Issues(maxSkewMs, events[j])
    ensures Less(events[i].committed, After(start, maxSkewMs, events, j + 1))
  {
    NeverGoesBack(start, maxSkewMs, events, i + 1, j);
  }

  /** While the run stays below 2^48 ms, the `u64` identifiers it hands out never collide. */
  lemma IssuedIdsIncrease(
      start: Timestamp, maxSkewMs: nat, events: seq<Event>, i: nat, j: nat)
    requires i < j < |events|
    requires Issues(maxSkewMs, events[i]) && Issues(maxSkewMs, events[j])
    requires Fits(After(start, maxSkewMs, events, j + 1))
    ensures ToU64(After(start, maxSkewMs, events, i + 1)) < ToU64(After(start, maxSkewMs, events, j + 1))
  {
    IssuedTimestampsIncrease(start, maxSkewMs, events, i, j);
    EncodingPreservesOrder(
      After(start, maxSkewMs, events, i + 1), After(start, maxSkewMs, events, j + 1));
  }

  /** `update` passes the remote timestamp except when the remote counter is exhausted
      and the merged clock stays on the remote millisecond; it then returns the remote itself. */
  lemma UpdatePassesRemoteIff(cur: Timestamp, wall: nat, remote: Timestamp)
    ensures Less(remote, Merge(cur, wall, remote)) <==>
              !(remote.logical == LOGICAL_MAX &&
                AtMost(Advance(cur, wall), Timestamp(remote.wallMs, LOGICAL_MAX - 1)))
    ensures !Less(remote, Merge(cur, wall, remote)) ==> Merge(cur, wall, remote) == remote
  {
  }
}
