/** Recovery records, the archive segment format and hash-linked chains of segments. */
module PitrSegment {
  import opened Base
  import opened Wire
  import opened Membership
  import RaftStore

  type Hash = Bytes

  type TimelineId = Bytes

  /** What the archive takes from elsewhere: the digest, and the strict command decoders. */
  datatype Env = Env(
    hash: Bytes -> Hash,
    sql: Bytes -> bool,
    identity: Bytes -> bool,
    membership: Bytes -> Option<Change>)

  const TIMELINE_BYTES := 16
  const HASH_BYTES := 32
  const HEADER_BYTES := 126
  const MAX_PAYLOAD_BYTES := 16 * 1024 * 1024
  const MAGIC: Bytes := [0x4E, 0x42, 0x41, 0x52] // "NBAR"
  const FORMAT_VERSION: byte := 1
  const KNOWN_FLAGS: byte := 0
  const COMPAT_VERSION: nat := 1

  const SQL_TAG: Bytes := [0x4E, 0x42, 0x52, 0x4D] // "NBRM"
  const IDENTITY_TAG: Bytes := [0x4E, 0x42, 0x52, 0x49] // "NBRI"
  const MEMBERSHIP_TAG: Bytes := [0xFC, 0xFD]
  const BARRIER: Bytes := [0x4E, 0x42, 0x52, 0x42, 1] // "NBRB" and its version

  ghost predicate Digests(env: Env) {
    forall b :: |env.hash(b)| == HASH_BYTES
  }

  // ---------------------------------------------------------------- records

  datatype Kind = Sql | Identity | Membership | Control

  datatype Record = Record(index: nat, term: nat, kind: Kind, payload: Bytes)

  datatype CodecError =
    | InvalidBoundary | PayloadTooLarge | InvalidSql | InvalidIdentity | InvalidMembership | UnsupportedCommand
    | KindMismatch | ZeroTimeline | WrongCompat | UnexpectedEof | ChecksumMismatch | InvalidMagic | BadVersion
    | BadFlags
    | BadKind | ReservedNonZero | LengthMismatch | PayloadHashMismatch | NonCanonical
    | WrongTimeline | Overlap | Gap | PreviousHashMismatch | IndexOverflow

  predicate StartsWith(b: Bytes, tag: Bytes) {
    tag <= b
  }

  function KindOf(env: Env, command: Bytes): Result<Kind, CodecError> {
    if StartsWith(command, SQL_TAG) then (if env.sql(command) then Ok(Sql) else Err(InvalidSql))
    else if StartsWith(command, IDENTITY_TAG) then
      (if env.identity(command) then Ok(Identity) else Err(InvalidIdentity))
    else if StartsWith(command, MEMBERSHIP_TAG) then
      (if env.membership(command).Some? then Ok(Kind.Membership) else Err(InvalidMembership))
    else if command == [] || command == BARRIER then Ok(Control)
    else Err(UnsupportedCommand)
  }

  function FromLogEntry(env: Env, entry: RaftStore.LogEntry): Result<Record, CodecError> {
    if entry.index == 0 || entry.term == 0 then Err(InvalidBoundary)
    else if |entry.command| > MAX_PAYLOAD_BYTES then Err(PayloadTooLarge)
    else
      match KindOf(env, entry.command)
      case Err(e) => Err(e)
      case Ok(kind) => Ok(Record(entry.index, entry.term, kind, entry.command))
  }

  function ToLogEntry(r: Record): RaftStore.LogEntry {
    RaftStore.LogEntry(r.term, r.index, r.payload)
  }

  function RecordError(env: Env, r: Record): Option<CodecError> {
    if r.index == 0 || r.term == 0 then Some(InvalidBoundary)
    else if |r.payload| > MAX_PAYLOAD_BYTES then Some(PayloadTooLarge)
    else
      match r.kind
      case Sql =>
        if !StartsWith(r.payload, SQL_TAG) then Some(KindMismatch)
        else if env.sql(r.payload) then None else Some(InvalidSql)
      case Identity =>
        if !StartsWith(r.payload, IDENTITY_TAG) then Some(KindMismatch)
        else if env.identity(r.payload) then None else Some(InvalidIdentity)
      case Membership =>
        if !StartsWith(r.payload, MEMBERSHIP_TAG) then Some(KindMismatch)
        else if env.membership(r.payload).Some? then None else Some(InvalidMembership)
      case Control => if r.payload == [] || r.payload == BARRIER then None else Some(KindMismatch)
  }

  /** A record is valid exactly when it is the record of its own log entry: the payload alone
      decides the kind. */
  lemma ValidRecordIff(env: Env, r: Record)
    ensures RecordError(env, r).None? <==> FromLogEntry(env, ToLogEntry(r)) == Ok(r)
  {
    var p := r.payload;
    assert StartsWith(p, SQL_TAG) ==> p[0] == 0x4E && p[3] == 0x4D;
    assert StartsWith(p, IDENTITY_TAG) ==> p[0] == 0x4E && p[3] == 0x49;
    assert StartsWith(p, MEMBERSHIP_TAG) ==> p[0] == 0xFC;
    assert p == BARRIER ==> p[0] == 0x4E && p[3] == 0x42;
  }

  // ---------------------------------------------------------------- segments

  datatype Segment = Segment(timeline: TimelineId, compat: nat, createdMs: nat, previousHash: Hash, record: Record)

  /** What the machine types of the fields say. */
  predicate Sized(s: Segment) {
    && |s.timeline| == TIMELINE_BYTES && |s.previousHash| == HASH_BYTES && s.compat < U16_LIMIT
    && s.createdMs < U64_LIMIT && s.record.index < U64_LIMIT && s.record.term < U64_LIMIT
  }

  function Zeros(n: nat): Bytes {
    seq(n, _ => 0)
  }

  function SegmentError(env: Env, s: Segment): Option<CodecError> {
    if s.timeline == Zeros(TIMELINE_BYTES) then Some(ZeroTimeline)
    else if s.compat != COMPAT_VERSION then Some(WrongCompat)
    else RecordError(env, s.record)
  }

  predicate ValidSegment(env: Env, s: Segment) {
    Sized(s) && SegmentError(env, s).None?
  }

  function KindByte(k: Kind): byte {
    match k
    case Sql => 1
    case Identity => 2
    case Membership => 3
    case Control => 4
  }

  function Preamble(s: Segment): Bytes {
    MAGIC + [FORMAT_VERSION, KNOWN_FLAGS, KindByte(s.record.kind), 0] + BigEndian(s.compat, 2) + s.timeline
  }

  function Position(s: Segment): Bytes {
    BigEndian(s.createdMs, 8) + BigEndian(s.record.index, 8) + BigEndian(s.record.index, 8) +
      BigEndian(s.record.term, 8)
  }

  function Links(env: Env, s: Segment): Bytes {
    s.previousHash + env.hash(s.record.payload) + BigEndian(|s.record.payload|, 4)
  }

  function Content(env: Env, s: Segment): Bytes {
    Preamble(s) + Position(s) + Links(env, s) + s.record.payload
  }

  function Encode(env: Env, s: Segment): Bytes {
    Content(env, s) + env.hash(Content(env, s))
  }

  function KindFrom(b: byte): Option<Kind> {
    if b == 1 then Some(Sql) else if b == 2 then Some(Identity) else if b == 3 then Some(Kind.Membership)
    else if b == 4 then Some(Control) else None
  }

  /** The segment whose fields are in these places. */
  function Fields(c: Bytes, kind: Kind): Segment
    requires |c| >= HEADER_BYTES
  {
    Segment(c[10..26], FromBigEndian(c[8..10]), FromBigEndian(c[26..34]), c[58..90],
            Record(FromBigEndian(c[34..42]), FromBigEndian(c[50..58]), kind, c[126..]))
  }

  function Decode(env: Env, b: Bytes): Result<Segment, CodecError> {
    if |b| > HEADER_BYTES + MAX_PAYLOAD_BYTES + HASH_BYTES then Err(PayloadTooLarge)
    else if |b| < HEADER_BYTES + HASH_BYTES then Err(UnexpectedEof)
    else
      var c := b[..|b| - HASH_BYTES];
      if b[|b| - HASH_BYTES..] != env.hash(c) then Err(ChecksumMismatch)
      else if c[..4] != MAGIC then Err(InvalidMagic)
      else if c[4] != FORMAT_VERSION then Err(BadVersion)
      else if c[5] != KNOWN_FLAGS then Err(BadFlags)
      else if KindFrom(c[6]).None? then Err(BadKind)
      else if c[7] != 0 then Err(ReservedNonZero)
      else
        var s := Fields(c, KindFrom(c[6]).value);
        if s.compat != COMPAT_VERSION then Err(WrongCompat)
        else if s.record.index == 0 || c[34..42] != c[42..50] || s.record.term == 0 then Err(InvalidBoundary)
        else if FromBigEndian(c[122..126]) > MAX_PAYLOAD_BYTES then Err(PayloadTooLarge)
        else if HEADER_BYTES + FromBigEndian(c[122..126]) + HASH_BYTES != |b| then Err(LengthMismatch)
        else if env.hash(s.record.payload) != c[90..122] then Err(PayloadHashMismatch)
        else if SegmentError(env, s).Some? then Err(SegmentError(env, s).value)
        else if Encode(env, s) != b then Err(NonCanonical)
        else Ok(s)
  }

  lemma PreambleParts(s: Segment)
    requires Sized(s)
    ensures var p := Preamble(s);
            && |p| == 26 && p[..4] == MAGIC && p[4] == FORMAT_VERSION && p[5] == KNOWN_FLAGS
            && p[6] == KindByte(s.record.kind) && p[7] == 0 && p[8..10] == BigEndian(s.compat, 2) &&
               p[10..26] == s.timeline
  {
  }

  lemma PositionParts(s: Segment)
    ensures var p := Position(s);
            && |p| == 32 && p[..8] == BigEndian(s.createdMs, 8) && p[8..16] == BigEndian(s.record.index, 8)
            && p[16..24] == BigEndian(s.record.index, 8) && p[24..32] == BigEndian(s.record.term, 8)
  {
  }

  lemma LinksParts(env: Env, s: Segment)
    requires Sized(s) && Digests(env)
    ensures var p := Links(env, s);
            && |p| == 68 && p[..32] == s.previousHash && p[32..64] == env.hash(s.record.payload)
            && p[64..68] == BigEndian(|s.record.payload|, 4)
  {
  }

  /** Slices of a concatenation of three blocks of known size and a tail. */
  lemma ContentParts(env: Env, s: Segment)
    requires Sized(s) && Digests(env)
    ensures var c := Content(env, s);
            && |c| == HEADER_BYTES + |s.record.payload|
            && c[..26] == Preamble(s) && c[26..58] == Position(s) && c[58..126] == Links(env, s) &&
               c[126..] == s.record.payload
  {
    PreambleParts(s);
    PositionParts(s);
    LinksParts(env, s);
  }

  lemma SubSlice(c: Bytes, lo: nat, hi: nat, i: nat, j: nat)
    requires lo <= hi <= |c| && i <= j <= hi - lo
    ensures c[lo..hi][i..j] == c[lo + i..lo + j]
  {
    forall k | 0 <= k < j - i
      ensures c[lo..hi][i..j][k] == c[lo + i..lo + j][k]
    {
    }
  }

  lemma EncodedFields(env: Env, s: Segment)
    requires Sized(s) && Digests(env)
    ensures var c := Content(env, s);
            && |c| == HEADER_BYTES + |s.record.payload|
            && c[..4] == MAGIC && c[4] == FORMAT_VERSION && c[5] == KNOWN_FLAGS && c[6] == KindByte(s.record.kind) &&
               c[7] == 0
            && c[8..10] == BigEndian(s.compat, 2) && c[10..26] == s.timeline && c[26..34] == BigEndian(s.createdMs, 8)
            && c[34..42] == c[42..50] == BigEndian(s.record.index, 8) && c[50..58] == BigEndian(s.record.term, 8)
            && c[58..90] == s.previousHash && c[90..122] == env.hash(s.record.payload)
            && c[122..126] == BigEndian(|s.record.payload|, 4) && c[126..] == s.record.payload
  {
    var c := Content(env, s);
    ContentParts(env, s);
    PreambleParts(s);
    PositionParts(s);
    LinksParts(env, s);
    SubSlice(c, 0, 26, 0, 4);
    SubSlice(c, 0, 26, 8, 10);
    SubSlice(c, 0, 26, 10, 26);
    SubSlice(c, 26, 58, 0, 8);
    SubSlice(c, 26, 58, 8, 16);
    SubSlice(c, 26, 58, 16, 24);
    SubSlice(c, 26, 58, 24, 32);
    SubSlice(c, 58, 126, 0, 32);
    SubSlice(c, 58, 126, 32, 64);
    SubSlice(c, 58, 126, 64, 68);
  }

  lemma FieldsOfContent(env: Env, s: Segment)
    requires ValidSegment(env, s) && Digests(env)
    ensures |Content(env, s)| >= HEADER_BYTES && Fields(Content(env, s), s.record.kind) == s
    ensures FromBigEndian(Content(env, s)[122..126]) == |s.record.payload|
  {
    EncodedFields(env, s);
    Pow256Values();
    BigEndianRoundTrip(s.compat, 2);
    BigEndianRoundTrip(s.createdMs, 8);
    BigEndianRoundTrip(s.record.index, 8);
    BigEndianRoundTrip(s.record.term, 8);
    BigEndianRoundTrip(|s.record.payload|, 4);
  }

  /** Every valid segment is read back from its encoding. */
  lemma SegmentRoundTrip(env: Env, s: Segment)
    requires ValidSegment(env, s) && Digests(env)
    ensures Decode(env, Encode(env, s)) == Ok(s)
  {
    var b, c := Encode(env, s), Content(env, s);
    EncodedFields(env, s);
    FieldsOfContent(env, s);
    assert b[..|b| - HASH_BYTES] == c && b[|b| - HASH_BYTES..] == env.hash(c);
  }

  /** Accepted bytes are exactly the encodings of valid segments. */
  lemma DecodeIff(env: Env, b: Bytes, s: Segment)
    requires Digests(env)
    ensures Decode(env, b) == Ok(s) <==> ValidSegment(env, s) && b == Encode(env, s)
  {
    Pow256Values();
    if ValidSegment(env, s) && b == Encode(env, s) {
      SegmentRoundTrip(env, s);
    }
  }

  lemma EncodeInjective(env: Env, s: Segment, s': Segment)
    requires Digests(env) && ValidSegment(env, s) && ValidSegment(env, s') && Encode(env, s) == Encode(env, s')
    ensures s == s'
  {
    SegmentRoundTrip(env, s);
    SegmentRoundTrip(env, s');
  }

  // ---------------------------------------------------------------- baseline anchors

  datatype Spec = Spec(timeline: TimelineId, baselineIndex: nat, baselineTerm: nat, backupHash: Hash)

  predicate SizedSpec(spec: Spec) {
    && |spec.timeline| == TIMELINE_BYTES && |spec.backupHash| == HASH_BYTES
    && spec.baselineIndex < U64_LIMIT && spec.baselineTerm < U64_LIMIT
  }

  function SpecError(spec: Spec): Option<CodecError> {
    if spec.timeline == Zeros(TIMELINE_BYTES) then Some(ZeroTimeline)
    else if (spec.baselineIndex == 0) != (spec.baselineTerm == 0) then Some(InvalidBoundary)
    else None
  }

  // "NeuralBase-PITR-v1-baseline-anchor"
  const ANCHOR_LABEL: Bytes := [
    0x4E, 0x65, 0x75, 0x72, 0x61, 0x6C, 0x42, 0x61, 0x73, 0x65, 0x2D, 0x50, 0x49, 0x54, 0x52, 0x2D, 0x76, 0x31, 0x2D,
    0x62, 0x61, 0x73, 0x65, 0x6C, 0x69, 0x6E, 0x65, 0x2D, 0x61, 0x6E, 0x63, 0x68, 0x6F, 0x72]

  function AnchorBytes(spec: Spec): Bytes {
    ANCHOR_LABEL + (spec.timeline + BigEndian(spec.baselineIndex, 8) + BigEndian(spec.baselineTerm, 8) +
      spec.backupHash)
  }

  lemma AnchorParts(spec: Spec)
    requires SizedSpec(spec)
    ensures var r := AnchorBytes(spec)[34..];
            && |r| == 64 && r[..16] == spec.timeline && r[16..24] == BigEndian(spec.baselineIndex, 8)
            && r[24..32] == BigEndian(spec.baselineTerm, 8) && r[32..] == spec.backupHash
  {
    var r := spec.timeline + BigEndian(spec.baselineIndex, 8) + BigEndian(spec.baselineTerm, 8) + spec.backupHash;
    assert AnchorBytes(spec)[34..] == r;
  }

  lemma AnchorInjective(spec: Spec, spec': Spec)
    requires SizedSpec(spec) && SizedSpec(spec') && AnchorBytes(spec) == AnchorBytes(spec')
    ensures spec == spec'
  {
    AnchorParts(spec);
    AnchorParts(spec');
    Pow256Values();
    BigEndianRoundTrip(spec.baselineIndex, 8);
    BigEndianRoundTrip(spec'.baselineIndex, 8);
    BigEndianRoundTrip(spec.baselineTerm, 8);
    BigEndianRoundTrip(spec'.baselineTerm, 8);
  }

  lemma AnchorIsNoSegment(env: Env, spec: Spec, s: Segment)
    ensures AnchorBytes(spec) != Encode(env, s)
  {
    assert AnchorBytes(spec)[1] == 0x65;
    assert Encode(env, s)[1] == 0x42;
  }

  // ---------------------------------------------------------------- the format as a whole

  /** The parts of the format that chains are built from. */
  datatype Codec = Codec(
    hash: Bytes -> Hash,
    encode: Segment -> Bytes,
    decode: Bytes -> Result<Segment, CodecError>,
    valid: Segment -> bool,
    anchor: Spec -> Bytes,
    record: RaftStore.LogEntry -> Result<Record, CodecError>)

  function Format(env: Env): Codec {
    Codec(
      b => env.hash(b), s => Encode(env, s), b => Decode(env, b), s => ValidSegment(env, s),
      spec => AnchorBytes(spec), entry => FromLogEntry(env, entry))
  }

  predicate SizedEntry(e: RaftStore.LogEntry) {
    e.index < U64_LIMIT && e.term < U64_LIMIT
  }

  predicate ReadsBack(c: Codec, s: Segment) {
    c.valid(s) ==> c.decode(c.encode(s)) == Ok(s)
  }

  predicate Canonical(c: Codec, b: Bytes) {
    c.decode(b).Ok? ==> c.valid(c.decode(b).value) && b == c.encode(c.decode(b).value)
  }

  predicate Apart(c: Codec, spec: Spec, s: Segment) {
    c.anchor(spec) != c.encode(s)
  }

  predicate Anchored(c: Codec, spec: Spec, spec': Spec) {
    SizedSpec(spec) && SizedSpec(spec') && c.anchor(spec) == c.anchor(spec') ==> spec == spec'
  }

  predicate KeepsEntry(c: Codec, e: RaftStore.LogEntry) {
    c.record(e).Ok? ==> ToLogEntry(c.record(e).value) == e
  }

  predicate KeepsRecord(c: Codec, s: Segment) {
    c.valid(s) ==> c.record(ToLogEntry(s.record)) == Ok(s.record) && SizedEntry(ToLogEntry(s.record))
  }

  predicate Accepts(c: Codec, e: RaftStore.LogEntry, timeline: TimelineId, ms: nat, previous: Hash) {
    NewSegmentSized(e, timeline, ms, previous) && c.record(e).Ok? ==>
      c.valid(NewSegment(timeline, ms, previous, c.record(e).value))
  }

  predicate IsDigest(c: Codec, b: Bytes) {
    |c.hash(b)| == HASH_BYTES
  }

  /** What chains rest on: accepted bytes are exactly the encodings of valid segments, anchors
      determine their spec and are no segment, and a classified entry makes a valid segment. */
  ghost predicate Lawful(c: Codec) {
    && (forall b :: IsDigest(c, b))
    && (forall s :: ReadsBack(c, s))
    && (forall b :: Canonical(c, b))
    && (forall spec, s :: Apart(c, spec, s))
    && (forall spec, spec' :: Anchored(c, spec, spec'))
    && (forall e :: KeepsEntry(c, e))
    && (forall s :: KeepsRecord(c, s))
    && (forall e, timeline, ms, previous :: Accepts(c, e, timeline, ms, previous))
  }

  predicate NewSegmentSized(e: RaftStore.LogEntry, timeline: TimelineId, ms: nat, previous: Hash) {
    SizedEntry(e) && |timeline| == TIMELINE_BYTES && timeline != Zeros(TIMELINE_BYTES) && ms < U64_LIMIT &&
      |previous| == HASH_BYTES
  }

  function NewSegment(timeline: TimelineId, ms: nat, previous: Hash, r: Record): Segment {
    Segment(timeline, COMPAT_VERSION, ms, previous, r)
  }

  lemma FormatSegments(env: Env)
    requires Digests(env)
    ensures forall s :: ReadsBack(Format(env), s)
    ensures forall b :: Canonical(Format(env), b)
  {
    forall s
      ensures ReadsBack(Format(env), s)
    {
      if ValidSegment(env, s) {
        SegmentRoundTrip(env, s);
      }
    }
    forall b
      ensures Canonical(Format(env), b)
    {
      if Decode(env, b).Ok? {
        DecodeIff(env, b, Decode(env, b).value);
      }
    }
  }

  lemma FormatAnchors(env: Env)
    ensures forall spec, s :: Apart(Format(env), spec, s)
    ensures forall spec, spec' :: Anchored(Format(env), spec, spec')
  {
    forall spec, s
      ensures Apart(Format(env), spec, s)
    {
      AnchorIsNoSegment(env, spec, s);
    }
    forall spec, spec'
      ensures Anchored(Format(env), spec, spec')
    {
      if SizedSpec(spec) && SizedSpec(spec') && AnchorBytes(spec) == AnchorBytes(spec') {
        AnchorInjective(spec, spec');
      }
    }
  }

  lemma FormatRecords(env: Env)
    ensures forall e :: KeepsEntry(Format(env), e)
    ensures forall s :: KeepsRecord(Format(env), s)
    ensures forall e, timeline, ms, previous :: Accepts(Format(env), e, timeline, ms, previous)
  {
    forall s
      ensures KeepsRecord(Format(env), s)
    {
      ValidRecordIff(env, s.record);
    }
    forall e, timeline, ms, previous
      ensures Accepts(Format(env), e, timeline, ms, previous)
    {
      if FromLogEntry(env, e).Ok? {
        ValidRecordIff(env, FromLogEntry(env, e).value);
      }
    }
  }

  /** The archive format has all of it, whatever the digest is. */
  lemma FormatIsLawful(env: Env)
    requires Digests(env)
    ensures Lawful(Format(env))
  {
    FormatSegments(env);
    FormatAnchors(env);
    FormatRecords(env);
  }
}
