/** Chains of archive segments: verification, what it accepts, and what a frontier pins down. */
module PitrChain {
  import opened Base
  import opened PitrSegment

  datatype Frontier = Frontier(index: nat, term: nat, hash: Hash, segments: nat)

  function Baseline(c: Codec, spec: Spec): Frontier {
    Frontier(spec.baselineIndex, spec.baselineTerm, c.hash(c.anchor(spec)), 0)
  }

  /** One link: the frontier after a segment that continues it. */
  function Advance(c: Codec, f: Frontier, s: Segment): Frontier {
    Frontier(s.record.index, s.record.term, c.hash(c.encode(s)), f.segments + 1)
  }

  function LinkError(timeline: TimelineId, f: Frontier, s: Segment): Option<CodecError> {
    if s.timeline != timeline then Some(WrongTimeline)
    else if s.record.index < f.index + 1 then Some(Overlap)
    else if s.record.index > f.index + 1 then Some(Gap)
    else if s.previousHash != f.hash then Some(PreviousHashMismatch)
    else None
  }

  function VerifyFrom(c: Codec, timeline: TimelineId, f: Frontier, encoded: seq<Bytes>): Result<Frontier, CodecError>
    decreases |encoded|
  {
    if f.index >= U64_MAX then Err(IndexOverflow)
    else if encoded == [] then Ok(f)
    else
      match c.decode(encoded[0])
      case Err(e) => Err(e)
      case Ok(s) =>
        if LinkError(timeline, f, s).Some? then Err(LinkError(timeline, f, s).value)
        else VerifyFrom(c, timeline, Advance(c, f, s), encoded[1..])
  }

  function Verification(c: Codec, spec: Spec, encoded: seq<Bytes>): Result<Frontier, CodecError> {
    if SpecError(spec).Some? then Err(SpecError(spec).value)
    else VerifyFrom(c, spec.timeline, Baseline(c, spec), encoded)
  }

  method VerifyArchiveChain(c: Codec, spec: Spec, encoded: seq<Bytes>) returns (r: Result<Frontier, CodecError>)
    ensures r == Verification(c, spec, encoded)
  {
    if SpecError(spec).Some? {
      return Err(SpecError(spec).value);
    }
    var frontier := Baseline(c, spec);
    if frontier.index >= U64_MAX {
      return Err(IndexOverflow);
    }
    var i := 0;
    while i < |encoded|
      invariant 0 <= i <= |encoded| && frontier.index < U64_MAX
      invariant Verification(c, spec, encoded) == VerifyFrom(c, spec.timeline, frontier, encoded[i..])
    {
      var s := c.decode(encoded[i]);
      if s.Err? {
        return Err(s.error);
      }
      if LinkError(spec.timeline, frontier, s.value).Some? {
        return Err(LinkError(spec.timeline, frontier, s.value).value);
      }
      assert encoded[i..][1..] == encoded[i + 1..];
      frontier := Advance(c, frontier, s.value);
      if frontier.index >= U64_MAX {
        return Err(IndexOverflow);
      }
      i := i + 1;
    }
    r := Ok(frontier);
  }

  // ---------------------------------------------------------------- what verification means

  /** What is hashed `i` links into the chain: the baseline anchor, then each segment. */
  function HashInput(c: Codec, spec: Spec, segments: seq<Segment>, i: nat): Bytes
    requires i <= |segments|
  {
    if i == 0 then c.anchor(spec) else c.encode(segments[i - 1])
  }

  function FrontierAt(c: Codec, spec: Spec, segments: seq<Segment>, i: nat): Frontier
    requires i <= |segments|
  {
    if i == 0 then Baseline(c, spec)
    else Frontier(segments[i - 1].record.index, segments[i - 1].record.term, c.hash(c.encode(segments[i - 1])), i)
  }

  /** The `i`-th segment is valid, of this timeline, at the next index, and names its predecessor. */
  predicate LinkedAt(c: Codec, spec: Spec, segments: seq<Segment>, i: nat)
    requires i < |segments|
  {
    var s := segments[i];
    && c.valid(s) && s.timeline == spec.timeline && s.record.index == spec.baselineIndex + 1 + i
    && s.previousHash == c.hash(HashInput(c, spec, segments, i))
  }

  ghost predicate IsChain(c: Codec, spec: Spec, segments: seq<Segment>) {
    forall i :: 0 <= i < |segments| ==> LinkedAt(c, spec, segments, i)
  }

  function EncodeAll(c: Codec, segments: seq<Segment>): (r: seq<Bytes>)
    ensures |r| == |segments| && forall i :: 0 <= i < |r| ==> r[i] == c.encode(segments[i])
  {
    seq(|segments|, i requires 0 <= i < |segments| => c.encode(segments[i]))
  }

  /** Verification accepts exactly the encodings of chains, and computes their frontier. */
  lemma VerifiedIff(c: Codec, spec: Spec, encoded: seq<Bytes>, f: Frontier)
    requires Lawful(c)
    ensures Verification(c, spec, encoded) == Ok(f) <==>
              && SpecError(spec).None? && spec.baselineIndex + |encoded| < U64_MAX
              && exists segments :: IsChain(c, spec, segments) && encoded == EncodeAll(c, segments)
                                    && f == FrontierAt(c, spec, segments, |segments|)
  {
    if Verification(c, spec, encoded) == Ok(f) {
      var segments := VerifiedSegments(c, spec, [], encoded);
      assert [] + segments == segments;
    }
    if SpecError(spec).None? && spec.baselineIndex + |encoded| < U64_MAX {
      forall segments | IsChain(c, spec, segments) && encoded == EncodeAll(c, segments) &&
        f == FrontierAt(c, spec, segments, |segments|)
        ensures Verification(c, spec, encoded) == Ok(f)
      {
        ChainVerifies(c, spec, segments, 0);
        assert EncodeAll(c, segments)[0..] == encoded;
      }
    }
  }

  lemma {:induction false} ChainVerifies(c: Codec, spec: Spec, segments: seq<Segment>, i: nat)
    requires Lawful(c) && IsChain(c, spec, segments) && i <= |segments| && spec.baselineIndex + |segments| < U64_MAX
    ensures VerifyFrom(c, spec.timeline, FrontierAt(c, spec, segments, i), EncodeAll(c, segments)[i..]) ==
              Ok(FrontierAt(c, spec, segments, |segments|))
    decreases |segments| - i
  {
    if i < |segments| {
      assert LinkedAt(c, spec, segments, i);
      assert i > 0 ==> LinkedAt(c, spec, segments, i - 1);
      assert ReadsBack(c, segments[i]);
      ChainVerifies(c, spec, segments, i + 1);
      assert EncodeAll(c, segments)[i..][1..] == EncodeAll(c, segments)[i + 1..];
    } else {
      assert i > 0 ==> LinkedAt(c, spec, segments, i - 1);
    }
  }

  lemma {:induction false} VerifiedSegments(c: Codec, spec: Spec, before: seq<Segment>, encoded: seq<Bytes>)
    returns (segments: seq<Segment>)
    requires Lawful(c) && IsChain(c, spec, before)
    requires VerifyFrom(c, spec.timeline, FrontierAt(c, spec, before, |before|), encoded).Ok?
    ensures IsChain(c, spec, before + segments) && encoded == EncodeAll(c, segments)
    ensures spec.baselineIndex + |before| + |segments| < U64_MAX
    ensures VerifyFrom(c, spec.timeline, FrontierAt(c, spec, before, |before|), encoded).value ==
              FrontierAt(c, spec, before + segments, |before + segments|)
    decreases |encoded|
  {
    if encoded == [] {
      segments := [];
      assert before + segments == before;
      assert before != [] ==> LinkedAt(c, spec, before, |before| - 1);
    } else {
      var s := c.decode(encoded[0]).value;
      assert Canonical(c, encoded[0]);
      ChainGrows(c, spec, before, s);
      var rest := VerifiedSegments(c, spec, before + [s], encoded[1..]);
      segments := [s] + rest;
      assert before + segments == before + [s] + rest;
      assert encoded == [encoded[0]] + encoded[1..];
    }
  }

  lemma ChainGrows(c: Codec, spec: Spec, before: seq<Segment>, s: Segment)
    requires IsChain(c, spec, before) && c.valid(s)
    requires LinkError(spec.timeline, FrontierAt(c, spec, before, |before|), s).None?
    ensures IsChain(c, spec, before + [s])
    ensures FrontierAt(c, spec, before + [s], |before| + 1) == Advance(c, FrontierAt(c, spec, before, |before|), s)
  {
    var after := before + [s];
    assert before != [] ==> LinkedAt(c, spec, before, |before| - 1);
    forall i | 0 <= i < |after|
      ensures LinkedAt(c, spec, after, i)
    {
      if i < |before| {
        assert LinkedAt(c, spec, before, i);
      }
    }
  }

  // ---------------------------------------------------------------- what a frontier hash pins down

  /** No two different inputs hashed in these two chains have one digest. */
  ghost predicate CollisionFree(c: Codec, spec: Spec, a: seq<Segment>, spec': Spec, b: seq<Segment>) {
    forall i, j :: 0 <= i <= |a| && 0 <= j <= |b| ==>
      c.hash(HashInput(c, spec, a, i)) == c.hash(HashInput(c, spec', b, j)) ==>
      HashInput(c, spec, a, i) == HashInput(c, spec', b, j)
  }

  /** Two chains whose hashes agree somewhere agree on everything before: the spec and every segment. */
  lemma {:induction false} HashPinsPrefix(
      c: Codec, spec: Spec, a: seq<Segment>, spec': Spec, b: seq<Segment>, i: nat, j: nat)
    requires Lawful(c) && SizedSpec(spec) && SizedSpec(spec') && IsChain(c, spec, a) && IsChain(c, spec', b)
    requires CollisionFree(c, spec, a, spec', b) && i <= |a| && j <= |b|
    requires c.hash(HashInput(c, spec, a, i)) == c.hash(HashInput(c, spec', b, j))
    ensures spec == spec' && i == j && a[..i] == b[..j]
    decreases i
  {
    assert HashInput(c, spec, a, i) == HashInput(c, spec', b, j);
    assert Anchored(c, spec, spec');
    assert j > 0 ==> Apart(c, spec, b[j - 1]);
    assert i > 0 ==> Apart(c, spec', a[i - 1]);
    if i > 0 && j > 0 {
      assert LinkedAt(c, spec, a, i - 1) && LinkedAt(c, spec', b, j - 1);
      assert ReadsBack(c, a[i - 1]) && ReadsBack(c, b[j - 1]);
      HashPinsPrefix(c, spec, a, spec', b, i - 1, j - 1);
      assert a[..i] == a[..i - 1] + [a[i - 1]] && b[..j] == b[..j - 1] + [b[j - 1]];
    }
  }

  /** A verified chain is determined by its frontier hash. */
  lemma FrontierPinsChain(c: Codec, spec: Spec, a: seq<Segment>, spec': Spec, b: seq<Segment>)
    requires Lawful(c) && SizedSpec(spec) && SizedSpec(spec') && IsChain(c, spec, a) && IsChain(c, spec', b)
    requires CollisionFree(c, spec, a, spec', b)
    requires FrontierAt(c, spec, a, |a|).hash == FrontierAt(c, spec', b, |b|).hash
    ensures spec == spec' && a == b
  {
    HashPinsPrefix(c, spec, a, spec', b, |a|, |b|);
    assert a[..|a|] == a && b[..|b|] == b;
  }

  /** The bytes of a segment of one timeline verify in no stream of another, wherever they are put. */
  lemma ForeignSegmentNeverVerifies(
      c: Codec, parent: Spec, segments: seq<Segment>, child: Spec, encoded: seq<Bytes>, i: nat, j: nat)
    requires Lawful(c) && IsChain(c, parent, segments) && parent.timeline != child.timeline
    requires i < |segments| && j < |encoded| && encoded[j] == c.encode(segments[i])
    ensures Verification(c, child, encoded).Err?
  {
    assert LinkedAt(c, parent, segments, i);
    assert ReadsBack(c, segments[i]);
    if Verification(c, child, encoded).Ok? {
      VerifiedTimeline(c, child, encoded, j);
    }
  }

  lemma VerifiedTimeline(c: Codec, spec: Spec, encoded: seq<Bytes>, j: nat)
    requires Lawful(c) && Verification(c, spec, encoded).Ok? && j < |encoded|
    ensures c.decode(encoded[j]).Ok? && c.decode(encoded[j]).value.timeline == spec.timeline
  {
    var f := Verification(c, spec, encoded).value;
    VerifiedIff(c, spec, encoded, f);
    var chain :| IsChain(c, spec, chain) && encoded == EncodeAll(c, chain) && f == FrontierAt(c, spec, chain, |chain|);
    assert LinkedAt(c, spec, chain, j) && ReadsBack(c, chain[j]);
  }
}
