/** Parsing at a position: what stands where, and sequences of items written one after another. */
module Items {
  import opened Base

  /** `x` stands at `pos`. */
  predicate At(b: Bytes, pos: nat, x: Bytes) {
    pos + |x| <= |b| && b[pos..pos + |x|] == x
  }

  lemma AtParts(b: Bytes, pos: nat, x: Bytes, y: Bytes)
    ensures At(b, pos, x + y) <==> At(b, pos, x) && At(b, pos + |x|, y)
  {
    if pos + |x| + |y| <= |b| {
      var z := b[pos..pos + |x| + |y|];
      assert b[pos..pos + |x|] == z[..|x|] && b[pos + |x|..pos + |x| + |y|] == z[|x|..];
      assert z == z[..|x|] + z[|x|..];
      assert (x + y)[..|x|] == x && (x + y)[|x|..] == y;
    }
  }

  lemma Assoc(a: Bytes, b: Bytes, c: Bytes)
    ensures a + (b + c) == (a + b) + c
  {
  }

  /** How one item is written, read at a position, and which items can be written. */
  datatype Format<!T> = Format(encode: T -> Bytes, read: (Bytes, nat) -> Option<(T, nat)>, fits: T -> bool)

  predicate ReadsBack<T(==)>(f: Format<T>, b: Bytes, pos: nat, x: T) {
    f.fits(x) && At(b, pos, f.encode(x)) ==> f.read(b, pos) == Some((x, pos + |f.encode(x)|))
  }

  predicate ReadsFitting<T>(f: Format<T>, b: Bytes, pos: nat) {
    f.read(b, pos).Some? ==> f.fits(f.read(b, pos).value.0)
  }

  /** Fitting items are read back, and only fitting items are read. */
  ghost predicate Lawful<T(!new)>(f: Format<T>) {
    && (forall b, pos, x :: ReadsBack(f, b, pos, x))
    && (forall b, pos :: ReadsFitting(f, b, pos))
  }

  function EncodeFrom<T>(f: Format<T>, xs: seq<T>, k: nat): Bytes
    requires k <= |xs|
    decreases |xs| - k
  {
    if k == |xs| then [] else f.encode(xs[k]) + EncodeFrom(f, xs, k + 1)
  }

  function ReadMany<T>(f: Format<T>, b: Bytes, pos: nat, n: nat): Option<(seq<T>, nat)>
    decreases n
  {
    if n == 0 then Some(([], pos))
    else
      match f.read(b, pos)
      case None => None
      case Some((x, next)) =>
        match ReadMany(f, b, next, n - 1)
        case None => None
        case Some((rest, end)) => Some(([x] + rest, end))
  }

  ghost predicate AllFit<T>(f: Format<T>, xs: seq<T>) {
    forall k :: 0 <= k < |xs| ==> f.fits(xs[k])
  }

  /** Fitting items written one after another are read back one after another. */
  lemma {:induction false} ManyRoundTrip<T(!new)>(f: Format<T>, b: Bytes, pos: nat, xs: seq<T>, k: nat)
    requires Lawful(f) && AllFit(f, xs) && k <= |xs| && At(b, pos, EncodeFrom(f, xs, k))
    ensures ReadMany(f, b, pos, |xs| - k) == Some((xs[k..], pos + |EncodeFrom(f, xs, k)|))
    decreases |xs| - k
  {
    if k < |xs| {
      var first := f.encode(xs[k]);
      AtParts(b, pos, first, EncodeFrom(f, xs, k + 1));
      assert ReadsBack(f, b, pos, xs[k]);
      ManyRoundTrip(f, b, pos + |first|, xs, k + 1);
      assert xs[k..] == [xs[k]] + xs[k + 1..];
    }
  }

  lemma {:induction false} ManyFit<T(!new)>(f: Format<T>, b: Bytes, pos: nat, n: nat)
    requires Lawful(f) && ReadMany(f, b, pos, n).Some?
    ensures |ReadMany(f, b, pos, n).value.0| == n && AllFit(f, ReadMany(f, b, pos, n).value.0)
    decreases n
  {
    if n > 0 {
      assert ReadsFitting(f, b, pos);
      ManyFit(f, b, f.read(b, pos).value.1, n - 1);
    }
  }

  /** Writing the next item brings the buffer one step closer to the whole. */
  lemma EncodeStep<T>(f: Format<T>, xs: seq<T>, k: nat, buf: Bytes, whole: Bytes)
    requires k < |xs| && buf + EncodeFrom(f, xs, k) == whole
    ensures buf + f.encode(xs[k]) + EncodeFrom(f, xs, k + 1) == whole
  {
    Assoc(buf, f.encode(xs[k]), EncodeFrom(f, xs, k + 1));
  }

  /** What was read so far, in front of what is still to be read. */
  function Prepend<T>(xs: seq<T>, rest: Option<(seq<T>, nat)>): Option<(seq<T>, nat)> {
    match rest
    case None => None
    case Some((ys, end)) => Some((xs + ys, end))
  }

  lemma PrependNothing<T>(rest: Option<(seq<T>, nat)>)
    ensures Prepend([], rest) == rest
  {
    if rest.Some? {
      assert [] + rest.value.0 == rest.value.0;
    }
  }

  lemma PrependOne<T>(xs: seq<T>, x: T, rest: Option<(seq<T>, nat)>)
    ensures Prepend(xs, Prepend([x], rest)) == Prepend(xs + [x], rest)
  {
    if rest.Some? {
      assert xs + ([x] + rest.value.0) == xs + [x] + rest.value.0;
    }
  }

  /** The result and the new position are those of the format. */
  predicate Follows<T(==)>(spec: Option<(T, nat)>, r: Option<T>, pos: nat) {
    match spec
    case None => r.None?
    case Some((x, end)) => r == Some(x) && pos == end
  }

  /** One more item read leaves one less to read. */
  lemma ReadStep<T>(f: Format<T>, b: Bytes, pos: nat, n: nat, xs: seq<T>, whole: Option<(seq<T>, nat)>)
    requires n > 0 && Prepend(xs, ReadMany(f, b, pos, n)) == whole
    ensures f.read(b, pos).None? ==> whole.None?
    ensures f.read(b, pos).Some? ==>
              Prepend(xs + [f.read(b, pos).value.0], ReadMany(f, b, f.read(b, pos).value.1, n - 1)) == whole
  {
    if f.read(b, pos).Some? {
      PrependOne(xs, f.read(b, pos).value.0, ReadMany(f, b, f.read(b, pos).value.1, n - 1));
    }
  }

  /** Reads one item after another. */
  method ReadAll<T>(f: Format<T>, b: Bytes, start: nat, n: nat) returns (r: Option<(seq<T>, nat)>)
    ensures r == ReadMany(f, b, start, n)
  {
    var xs: seq<T> := [];
    var pos := start;
    PrependNothing(ReadMany(f, b, start, n));
    for k := 0 to n
      invariant Prepend(xs, ReadMany(f, b, pos, n - k)) == ReadMany(f, b, start, n)
    {
      var x := f.read(b, pos);
      if x.None? {
        return None;
      }
      ReadStep(f, b, pos, n - k, xs, ReadMany(f, b, start, n));
      xs := xs + [x.value.0];
      pos := x.value.1;
    }
    assert xs + [] == xs;
    r := Some((xs, pos));
  }
}
