/** Formats built from smaller ones; each keeps the laws of its parts. */
module Formats {
  import opened Base
  import opened Wire
  import opened Items

  /** What was read is what stands there. */
  predicate ReadsCanonical<T>(f: Format<T>, b: Bytes, pos: nat) {
    f.read(b, pos).Some? ==>
      At(b, pos, f.encode(f.read(b, pos).value.0)) && f.read(b, pos).value.1 == pos + |f.encode(f.read(b, pos).value.0)|
  }

  ghost predicate Canonical<T(!new)>(f: Format<T>) {
    forall b, pos :: ReadsCanonical(f, b, pos)
  }

  /** Writing and reading are each other's inverse. */
  ghost predicate Exact<T(!new)>(f: Format<T>) {
    Lawful(f) && Canonical(f)
  }

  // ---------------------------------------------------------------- numbers and blocks

  function ReadFixed(b: Bytes, pos: nat, n: nat): Option<(Bytes, nat)> {
    if pos + n > |b| then None else Some((b[pos..pos + n], pos + n))
  }

  function Fixed(n: nat): Format<Bytes> {
    Format(x => x, (b, pos) => ReadFixed(b, pos, n), x => |x| == n)
  }

  lemma FixedIsExact(n: nat)
    ensures Exact(Fixed(n))
  {
    forall b, pos: nat, x
      ensures ReadsBack(Fixed(n), b, pos, x)
    {
    }
    forall b, pos: nat
      ensures ReadsFitting(Fixed(n), b, pos) && ReadsCanonical(Fixed(n), b, pos)
    {
    }
  }

  function ReadU32(b: Bytes, pos: nat): Option<(nat, nat)> {
    if pos + 4 > |b| then None else Some((FromBigEndian(b[pos..pos + 4]), pos + 4))
  }

  function U32(): Format<nat> {
    Format(n => BigEndian(n, 4), (b, pos) => ReadU32(b, pos), n => n < U32_LIMIT)
  }

  lemma U32IsExact()
    ensures Exact(U32())
  {
    Pow256Values();
    forall b, pos: nat, n: nat
      ensures ReadsBack(U32(), b, pos, n)
    {
      if n < U32_LIMIT {
        BigEndianRoundTrip(n, 4);
      }
    }
    forall b, pos: nat
      ensures ReadsFitting(U32(), b, pos) && ReadsCanonical(U32(), b, pos)
    {
      if pos + 4 <= |b| {
        BigEndianCanonical(b[pos..pos + 4]);
      }
    }
  }

  // ---------------------------------------------------------------- combinations

  function ReadPair<S, T>(f: Format<S>, g: Format<T>, b: Bytes, pos: nat): Option<((S, T), nat)> {
    match f.read(b, pos)
    case None => None
    case Some((x, mid)) =>
      match g.read(b, mid)
      case None => None
      case Some((y, end)) => Some(((x, y), end))
  }

  function Pair<S, T>(f: Format<S>, g: Format<T>): Format<(S, T)> {
    Format((p: (S, T)) => f.encode(p.0) + g.encode(p.1), (b, pos) => ReadPair(f, g, b, pos),
           (p: (S, T)) => f.fits(p.0) && g.fits(p.1))
  }

  lemma PairIsExact<S(!new), T(!new)>(f: Format<S>, g: Format<T>)
    requires Exact(f) && Exact(g)
    ensures Exact(Pair(f, g))
  {
    forall b, pos: nat, p: (S, T)
      ensures ReadsBack(Pair(f, g), b, pos, p)
    {
      AtParts(b, pos, f.encode(p.0), g.encode(p.1));
      assert ReadsBack(f, b, pos, p.0) && ReadsBack(g, b, pos + |f.encode(p.0)|, p.1);
    }
    forall b, pos: nat
      ensures ReadsFitting(Pair(f, g), b, pos) && ReadsCanonical(Pair(f, g), b, pos)
    {
      assert ReadsFitting(f, b, pos) && ReadsCanonical(f, b, pos);
      if ReadPair(f, g, b, pos).Some? {
        var (x, mid) := f.read(b, pos).value;
        assert ReadsFitting(g, b, mid) && ReadsCanonical(g, b, mid);
        AtParts(b, pos, f.encode(x), g.encode(g.read(b, mid).value.0));
      }
    }
  }

  function ReadIf<T>(f: Format<T>, ok: T -> bool, b: Bytes, pos: nat): Option<(T, nat)> {
    match f.read(b, pos)
    case None => None
    case Some((x, end)) => if ok(x) then Some((x, end)) else None
  }

  /** Only the items that pass the test. */
  function Restrict<T>(f: Format<T>, ok: T -> bool): Format<T> {
    Format(x => f.encode(x), (b, pos) => ReadIf(f, ok, b, pos), x => f.fits(x) && ok(x))
  }

  lemma RestrictIsExact<T(!new)>(f: Format<T>, ok: T -> bool)
    requires Exact(f)
    ensures Exact(Restrict(f, ok))
  {
    forall b, pos: nat, x
      ensures ReadsBack(Restrict(f, ok), b, pos, x)
    {
      assert ReadsBack(f, b, pos, x);
    }
    forall b, pos: nat
      ensures ReadsFitting(Restrict(f, ok), b, pos) && ReadsCanonical(Restrict(f, ok), b, pos)
    {
      assert ReadsFitting(f, b, pos) && ReadsCanonical(f, b, pos);
    }
  }

  function ReadAs<S, T>(f: Format<S>, make: S -> T, b: Bytes, pos: nat): Option<(T, nat)> {
    match f.read(b, pos)
    case None => None
    case Some((x, end)) => Some((make(x), end))
  }

  /** The same bytes for another type, given a way there and back. */
  function Map<S, T>(f: Format<S>, make: S -> T, take: T -> S): Format<T> {
    Format(y => f.encode(take(y)), (b, pos) => ReadAs(f, make, b, pos), y => f.fits(take(y)))
  }

  lemma MapIsExact<S(!new), T(!new)>(f: Format<S>, make: S -> T, take: T -> S)
    requires Exact(f) && (forall x :: take(make(x)) == x) && (forall y :: make(take(y)) == y)
    ensures Exact(Map(f, make, take))
  {
    forall b, pos: nat, y
      ensures ReadsBack(Map(f, make, take), b, pos, y)
    {
      assert ReadsBack(f, b, pos, take(y));
    }
    forall b, pos: nat
      ensures ReadsFitting(Map(f, make, take), b, pos) && ReadsCanonical(Map(f, make, take), b, pos)
    {
      assert ReadsFitting(f, b, pos) && ReadsCanonical(f, b, pos);
    }
  }

  function ReadBlob(b: Bytes, pos: nat): Option<(Bytes, nat)> {
    match ReadU32(b, pos)
    case None => None
    case Some((len, mid)) => ReadFixed(b, mid, len)
  }

  /** A length and that many bytes. */
  function Blob(): Format<Bytes> {
    Format(x => BigEndian(|x|, 4) + x, (b, pos) => ReadBlob(b, pos), x => |x| < U32_LIMIT)
  }

  lemma BlobIsExact()
    ensures Exact(Blob())
  {
    U32IsExact();
    forall b, pos: nat, x
      ensures ReadsBack(Blob(), b, pos, x)
    {
      AtParts(b, pos, BigEndian(|x|, 4), x);
      assert ReadsBack(U32(), b, pos, |x|);
    }
    forall b, pos: nat
      ensures ReadsFitting(Blob(), b, pos) && ReadsCanonical(Blob(), b, pos)
    {
      assert ReadsFitting(U32(), b, pos) && ReadsCanonical(U32(), b, pos);
      if ReadBlob(b, pos).Some? {
        AtParts(b, pos, BigEndian(ReadU32(b, pos).value.0, 4), ReadBlob(b, pos).value.0);
      }
    }
  }

  function ReadPrefixed<T>(tag: Bytes, f: Format<T>, b: Bytes, pos: nat): Option<(T, nat)> {
    if At(b, pos, tag) then f.read(b, pos + |tag|) else None
  }

  /** Behind fixed bytes. */
  function Prefixed<T>(tag: Bytes, f: Format<T>): Format<T> {
    Format(x => tag + f.encode(x), (b, pos) => ReadPrefixed(tag, f, b, pos), x => f.fits(x))
  }

  lemma PrefixedIsExact<T(!new)>(tag: Bytes, f: Format<T>)
    requires Exact(f)
    ensures Exact(Prefixed(tag, f))
  {
    forall b, pos: nat, x
      ensures ReadsBack(Prefixed(tag, f), b, pos, x)
    {
      AtParts(b, pos, tag, f.encode(x));
      assert ReadsBack(f, b, pos + |tag|, x);
    }
    forall b, pos: nat
      ensures ReadsFitting(Prefixed(tag, f), b, pos) && ReadsCanonical(Prefixed(tag, f), b, pos)
    {
      assert ReadsFitting(f, b, pos + |tag|) && ReadsCanonical(f, b, pos + |tag|);
      if ReadPrefixed(tag, f, b, pos).Some? {
        AtParts(b, pos, tag, f.encode(ReadPrefixed(tag, f, b, pos).value.0));
      }
    }
  }

  function ReadBool(b: Bytes, pos: nat): Option<(bool, nat)> {
    if pos + 1 > |b| || b[pos] > 1 then None else Some((b[pos] == 1, pos + 1))
  }

  function Bool(): Format<bool> {
    Format(x => [if x then 1 else 0], (b, pos) => ReadBool(b, pos), _ => true)
  }

  lemma BoolIsExact()
    ensures Exact(Bool())
  {
    forall b, pos: nat, x
      ensures ReadsBack(Bool(), b, pos, x)
    {
      if At(b, pos, [if x then 1 else 0]) {
        assert b[pos] == b[pos..pos + 1][0];
      }
    }
    forall b, pos: nat
      ensures ReadsFitting(Bool(), b, pos) && ReadsCanonical(Bool(), b, pos)
    {
      if ReadBool(b, pos).Some? {
        assert b[pos..pos + 1] == [b[pos]];
      }
    }
  }

  /** A run of items is what stands there, too. */
  lemma {:induction false} ManyCanonical<T(!new)>(f: Format<T>, b: Bytes, pos: nat, n: nat)
    requires Canonical(f) && pos <= |b| && ReadMany(f, b, pos, n).Some?
    ensures var (xs, end) := ReadMany(f, b, pos, n).value;
            |xs| == n && At(b, pos, EncodeFrom(f, xs, 0)) && end == pos + |EncodeFrom(f, xs, 0)|
    decreases n
  {
    if n > 0 {
      var (x, mid) := f.read(b, pos).value;
      assert ReadsCanonical(f, b, pos);
      ManyCanonical(f, b, mid, n - 1);
      var rest := ReadMany(f, b, mid, n - 1).value.0;
      EncodeTail(f, [x] + rest, 1);
      assert ([x] + rest)[1..] == rest;
      AtParts(b, pos, f.encode(x), EncodeFrom(f, rest, 0));
    }
  }

  lemma {:induction false} EncodeTail<T>(f: Format<T>, xs: seq<T>, k: nat)
    requires k <= |xs|
    ensures EncodeFrom(f, xs, k) == EncodeFrom(f, xs[k..], 0)
    decreases |xs| - k
  {
    if k < |xs| {
      EncodeTail(f, xs, k + 1);
      EncodeTail(f, xs[k..], 1);
      assert xs[k..][1..] == xs[k + 1..];
    }
  }
}
