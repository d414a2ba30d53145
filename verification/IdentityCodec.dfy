/** The canonical encoding of replicated identity commands. */
module IdentityCodec {
  import opened Base
  import opened Wire
  import opened Items
  import opened Formats

  type Utf8Check = Bytes -> bool

  datatype Credential = Credential(salt: Bytes, iterations: nat, storedKey: Bytes, serverKey: Bytes)

  datatype User = User(name: Bytes, credential: Credential)

  datatype Mutation =
    | Initialize(users: seq<User>)
    | CreateUser(user: User)
    | AlterUser(user: User)
    | DropUser(name: Bytes, ifExists: bool)

  const MAGIC: Bytes := [0x4E, 0x42, 0x52, 0x49] // "NBRI"
  const VERSION: byte := 1
  const CREDENTIAL_VERSION: byte := 1
  const MAX_BYTES: nat := 1024 * 1024
  const MAX_USERNAME_BYTES: nat := 256
  const MAX_INITIAL_USERS: nat := 100_000

  predicate ValidUsername(name: Bytes) {
    name != [] && |name| <= MAX_USERNAME_BYTES && 0 !in name
  }

  predicate ValidCredential(c: Credential) {
    8 <= |c.salt| <= 64 && 4_096 <= c.iterations <= 10_000_000
  }

  // ---------------------------------------------------------------- users

  function Username(utf8: Utf8Check): Format<Bytes> {
    Restrict(Blob(), name => utf8(name) && ValidUsername(name))
  }

  type CredentialParts = (Bytes, (nat, (Bytes, Bytes)))

  function MakeCredential(p: CredentialParts): Credential {
    Credential(p.0, p.1.0, p.1.1.0, p.1.1.1)
  }

  function TakeCredential(c: Credential): CredentialParts {
    (c.salt, (c.iterations, (c.storedKey, c.serverKey)))
  }

  function Parts(): Format<CredentialParts> {
    Pair(Blob(), Pair(U32(), Pair(Fixed(32), Fixed(32))))
  }

  function Credentials(): Format<Credential> {
    Prefixed([CREDENTIAL_VERSION],
      Restrict(Map(Parts(), (p: CredentialParts) => MakeCredential(p), c => TakeCredential(c)),
        c => ValidCredential(c)))
  }

  function Users(utf8: Utf8Check): Format<User> {
    Map(Pair(Username(utf8), Credentials()), (p: (Bytes, Credential)) => User(p.0, p.1),
      (u: User) => (u.name, u.credential))
  }

  function Drops(utf8: Utf8Check): Format<(Bytes, bool)> {
    Pair(Username(utf8), Bool())
  }

  lemma UsernameIsExact(utf8: Utf8Check)
    ensures Exact(Username(utf8))
  {
    BlobIsExact();
    RestrictIsExact(Blob(), name => utf8(name) && ValidUsername(name));
  }

  lemma CredentialsAreExact()
    ensures Exact(Credentials())
  {
    BlobIsExact();
    U32IsExact();
    FixedIsExact(32);
    PairIsExact(Fixed(32), Fixed(32));
    PairIsExact(U32(), Pair(Fixed(32), Fixed(32)));
    PairIsExact(Blob(), Pair(U32(), Pair(Fixed(32), Fixed(32))));
    var mapped := Map(Parts(), (p: CredentialParts) => MakeCredential(p), c => TakeCredential(c));
    MapIsExact(Parts(), (p: CredentialParts) => MakeCredential(p), c => TakeCredential(c));
    RestrictIsExact(mapped, c => ValidCredential(c));
    PrefixedIsExact([CREDENTIAL_VERSION], Restrict(mapped, c => ValidCredential(c)));
  }

  lemma UsersAreExact(utf8: Utf8Check)
    ensures Exact(Users(utf8)) && Exact(Drops(utf8))
  {
    UsernameIsExact(utf8);
    CredentialsAreExact();
    BoolIsExact();
    PairIsExact(Username(utf8), Credentials());
    PairIsExact(Username(utf8), Bool());
    MapIsExact(Pair(Username(utf8), Credentials()), (p: (Bytes, Credential)) => User(p.0, p.1),
      (u: User) => (u.name, u.credential));
  }

  // ---------------------------------------------------------------- canonical order

  predicate Before(a: User, b: User) {
    LexAtMost(a.name, b.name) && a.name != b.name
  }

  predicate StrictlyOrdered(users: seq<User>) {
    forall i :: 0 < i < |users| ==> Before(users[i - 1], users[i])
  }

  function InsertUser(u: User, users: seq<User>): seq<User> {
    if users == [] || LexAtMost(u.name, users[0].name) then [u] + users else [users[0]] + InsertUser(u, users[1..])
  }

  function SortUsers(users: seq<User>): seq<User> {
    if users == [] then [] else InsertUser(users[0], SortUsers(users[1..]))
  }

  lemma {:induction false} InsertPermutes(u: User, users: seq<User>)
    ensures multiset(InsertUser(u, users)) == multiset{u} + multiset(users)
  {
    if users != [] && !LexAtMost(u.name, users[0].name) {
      InsertPermutes(u, users[1..]);
      assert users == [users[0]] + users[1..];
    }
  }

  lemma {:induction false} SortPermutes(users: seq<User>)
    ensures multiset(SortUsers(users)) == multiset(users)
  {
    if users != [] {
      SortPermutes(users[1..]);
      InsertPermutes(users[0], SortUsers(users[1..]));
      assert users == [users[0]] + users[1..];
    }
  }

  /** Sorting leaves an ordered list as it is. */
  lemma {:induction false} SortedStays(users: seq<User>)
    requires StrictlyOrdered(users)
    ensures SortUsers(users) == users
  {
    if users != [] {
      RestIsOrdered(users);
      SortedStays(users[1..]);
      assert |users| > 1 ==> Before(users[0], users[1]);
      assert users == [users[0]] + users[1..];
    }
  }

  lemma RestIsOrdered(users: seq<User>)
    requires StrictlyOrdered(users) && users != []
    ensures StrictlyOrdered(users[1..])
  {
    var rest := users[1..];
    forall i | 0 < i < |rest|
      ensures Before(rest[i - 1], rest[i])
    {
      assert Before(users[i], users[i + 1]);
    }
  }

  // ---------------------------------------------------------------- commands

  ghost predicate UsersFit(utf8: Utf8Check, users: seq<User>) {
    AllFit(Users(utf8), users) && StrictlyOrdered(users) && |users| <= MAX_INITIAL_USERS
  }

  function Head(op: byte): Bytes {
    MAGIC + [VERSION, op]
  }

  predicate AllValid(utf8: Utf8Check, users: seq<User>) {
    forall i :: 0 <= i < |users| ==> Users(utf8).fits(users[i])
  }

  /** The bytes of a command, if it is one that can be written at all. */
  function Written(utf8: Utf8Check, m: Mutation): Option<Bytes> {
    match m
    case Initialize(users) =>
      var sorted := SortUsers(users);
      if !AllValid(utf8, sorted) || !StrictlyOrdered(sorted) || |sorted| > MAX_INITIAL_USERS then None
      else Some(Head(1) + (BigEndian(|sorted|, 4) + EncodeFrom(Users(utf8), sorted, 0)))
    case CreateUser(u) => if Users(utf8).fits(u) then Some(Head(2) + Users(utf8).encode(u)) else None
    case AlterUser(u) => if Users(utf8).fits(u) then Some(Head(3) + Users(utf8).encode(u)) else None
    case DropUser(name, ifExists) =>
      if Drops(utf8).fits((name, ifExists)) then Some(Head(4) + Drops(utf8).encode((name, ifExists))) else None
  }

  function Encode(utf8: Utf8Check, m: Mutation): Option<Bytes> {
    match Written(utf8, m)
    case None => None
    case Some(b) => if |b| > MAX_BYTES then None else Some(b)
  }

  function ReadUsers(utf8: Utf8Check, b: Bytes): Option<(Mutation, nat)> {
    match ReadU32(b, 6)
    case None => None
    case Some((count, _)) =>
      if count > MAX_INITIAL_USERS then None
      else
        match ReadMany(Users(utf8), b, 10, count)
        case None => None
        case Some((users, end)) => if StrictlyOrdered(users) then Some((Initialize(users), end)) else None
  }

  function ReadCommand(utf8: Utf8Check, b: Bytes, op: byte): Option<(Mutation, nat)> {
    if op == 1 then ReadUsers(utf8, b)
    else if op == 2 then
      (match Users(utf8).read(b, 6)
       case None => None
       case Some((u, end)) => Some((CreateUser(u), end)))
    else if op == 3 then
      (match Users(utf8).read(b, 6)
       case None => None
       case Some((u, end)) => Some((AlterUser(u), end)))
    else if op == 4 then
      match Drops(utf8).read(b, 6)
      case None => None
      case Some((d, end)) => Some((DropUser(d.0, d.1), end))
    else None
  }

  function Decode(utf8: Utf8Check, b: Bytes): Option<Mutation> {
    if |b| > MAX_BYTES || |b| < 6 || b[..4] != MAGIC || b[4] != VERSION then None
    else
      match ReadCommand(utf8, b, b[5])
      case None => None
      case Some((m, end)) => if end == |b| then Some(m) else None
  }

  // ---------------------------------------------------------------- both directions

  lemma HeadSplits(b: Bytes, op: byte, body: Bytes)
    requires b == Head(op) + body
    ensures |b| >= 6 && b[..4] == MAGIC && b[4] == VERSION && b[5] == op && At(b, 6, body) && |b| == 6 + |body|
  {
  }

  lemma HeadJoins(b: Bytes, body: Bytes)
    requires |b| >= 6 && b[..4] == MAGIC && b[4] == VERSION && At(b, 6, body) && |b| == 6 + |body|
    ensures b == Head(b[5]) + body
  {
    assert b == b[..4] + [b[4], b[5]] + b[6..];
  }

  /** Reading one item to the end of the bytes, and writing it. */
  lemma OneItem<T(!new)>(f: Format<T>, b: Bytes, op: byte, x: T)
    requires Exact(f)
    ensures f.fits(x) && b == Head(op) + f.encode(x) <==>
              |b| >= 6 && b[..4] == MAGIC && b[4] == VERSION && b[5] == op && f.read(b, 6) == Some((x, |b|))
  {
    assert ReadsBack(f, b, 6, x) && ReadsFitting(f, b, 6) && ReadsCanonical(f, b, 6);
    if f.fits(x) && b == Head(op) + f.encode(x) {
      HeadSplits(b, op, f.encode(x));
    }
    if |b| >= 6 && b[..4] == MAGIC && b[4] == VERSION && b[5] == op && f.read(b, 6) == Some((x, |b|)) {
      HeadJoins(b, f.encode(x));
    }
  }

  /** The same for a counted run of items. */
  lemma ItemsWritten<T(!new)>(f: Format<T>, b: Bytes, xs: seq<T>)
    requires Exact(f) && AllFit(f, xs) && |xs| < U32_LIMIT
    requires b == Head(1) + (BigEndian(|xs|, 4) + EncodeFrom(f, xs, 0))
    ensures |b| >= 6 && b[..4] == MAGIC && b[4] == VERSION && b[5] == 1
    ensures ReadU32(b, 6) == Some((|xs|, 10)) && ReadMany(f, b, 10, |xs|) == Some((xs, |b|))
  {
    HeadSplits(b, 1, BigEndian(|xs|, 4) + EncodeFrom(f, xs, 0));
    AtParts(b, 6, BigEndian(|xs|, 4), EncodeFrom(f, xs, 0));
    U32IsExact();
    assert ReadsBack(U32(), b, 6, |xs|);
    ManyRoundTrip(f, b, 10, xs, 0);
    assert xs[0..] == xs;
  }

  lemma ItemsRead<T(!new)>(f: Format<T>, b: Bytes, count: nat, xs: seq<T>)
    requires Exact(f) && |b| >= 6 && b[..4] == MAGIC && b[4] == VERSION
    requires ReadU32(b, 6) == Some((count, 10)) && ReadMany(f, b, 10, count) == Some((xs, |b|))
    ensures AllFit(f, xs) && |xs| == count && b == Head(b[5]) + (BigEndian(count, 4) + EncodeFrom(f, xs, 0))
  {
    U32IsExact();
    assert ReadsCanonical(U32(), b, 6);
    ManyFit(f, b, 10, count);
    ManyCanonical(f, b, 10, count);
    AtParts(b, 6, BigEndian(count, 4), EncodeFrom(f, xs, 0));
    HeadJoins(b, BigEndian(count, 4) + EncodeFrom(f, xs, 0));
  }

  lemma UsersWritten(utf8: Utf8Check, b: Bytes, users: seq<User>)
    requires Exact(Users(utf8)) && UsersFit(utf8, users)
    requires b == Head(1) + (BigEndian(|users|, 4) + EncodeFrom(Users(utf8), users, 0))
    ensures |b| >= 6 && b[..4] == MAGIC && b[4] == VERSION && b[5] == 1 &&
            ReadUsers(utf8, b) == Some((Initialize(users), |b|))
  {
    ItemsWritten(Users(utf8), b, users);
    CountedUsers(utf8, b, users);
  }

  lemma CountedUsers(utf8: Utf8Check, b: Bytes, users: seq<User>)
    requires ReadU32(b, 6) == Some((|users|, 10)) && ReadMany(Users(utf8), b, 10, |users|) == Some((users, |b|))
    requires StrictlyOrdered(users) && |users| <= MAX_INITIAL_USERS
    ensures ReadUsers(utf8, b) == Some((Initialize(users), |b|))
  {
  }

  lemma UsersRead(utf8: Utf8Check, b: Bytes, m: Mutation)
    requires Exact(Users(utf8)) && |b| >= 6 && b[..4] == MAGIC && b[4] == VERSION && b[5] == 1
    requires ReadUsers(utf8, b) == Some((m, |b|))
    ensures m.Initialize? && UsersFit(utf8, m.users)
    ensures b == Head(1) + (BigEndian(|m.users|, 4) + EncodeFrom(Users(utf8), m.users, 0))
  {
    ItemsRead(Users(utf8), b, ReadU32(b, 6).value.0, m.users);
  }

  /** The command with its users in order. */
  function Ordered(m: Mutation): Mutation {
    if m.Initialize? then Initialize(SortUsers(m.users)) else m
  }

  lemma WrittenReads(utf8: Utf8Check, m: Mutation, b: Bytes)
    requires Written(utf8, m) == Some(b)
    ensures |b| >= 6 && b[..4] == MAGIC && b[4] == VERSION && ReadCommand(utf8, b, b[5]) == Some((Ordered(m), |b|))
  {
    match m {
      case Initialize(users) => UsersCommandReads(utf8, users, b);
      case CreateUser(u) => OneUserReads(utf8, m, u, 2, b);
      case AlterUser(u) => OneUserReads(utf8, m, u, 3, b);
      case DropUser(name, ifExists) =>
        UsersAreExact(utf8);
        OneItem(Drops(utf8), b, 4, (name, ifExists));
    }
  }

  lemma UsersCommandReads(utf8: Utf8Check, users: seq<User>, b: Bytes)
    requires Written(utf8, Initialize(users)) == Some(b)
    ensures |b| >= 6 && b[..4] == MAGIC && b[4] == VERSION
    ensures ReadCommand(utf8, b, b[5]) == Some((Initialize(SortUsers(users)), |b|))
  {
    UsersAreExact(utf8);
    UsersWritten(utf8, b, SortUsers(users));
  }

  lemma OneUserReads(utf8: Utf8Check, m: Mutation, u: User, op: byte, b: Bytes)
    requires (m == CreateUser(u) && op == 2) || (m == AlterUser(u) && op == 3)
    requires Written(utf8, m) == Some(b)
    ensures |b| >= 6 && b[..4] == MAGIC && b[4] == VERSION && ReadCommand(utf8, b, b[5]) == Some((m, |b|))
  {
    UsersAreExact(utf8);
    OneItem(Users(utf8), b, op, u);
  }

  lemma ReadIsWritten(utf8: Utf8Check, m: Mutation, b: Bytes)
    requires |b| >= 6 && b[..4] == MAGIC && b[4] == VERSION && ReadCommand(utf8, b, b[5]) == Some((m, |b|))
    ensures Written(utf8, m) == Some(b) && Ordered(m) == m
  {
    UsersAreExact(utf8);
    if b[5] == 1 {
      UsersRead(utf8, b, m);
      SortedStays(m.users);
    } else if b[5] == 2 || b[5] == 3 {
      OneItem(Users(utf8), b, b[5], m.user);
    } else {
      OneItem(Drops(utf8), b, 4, (m.name, m.ifExists));
    }
  }

  /** Encoding and decoding are inverse: accepted bytes are exactly the encodings, and an
      encoding decodes to the command with its users in order. */
  lemma Bijection(utf8: Utf8Check, b: Bytes, m: Mutation)
    ensures Decode(utf8, b) == Some(m) ==> Encode(utf8, m) == Some(b)
    ensures Encode(utf8, m) == Some(b) ==> Decode(utf8, b) == Some(Ordered(m))
  {
    if Decode(utf8, b) == Some(m) {
      ReadIsWritten(utf8, m, b);
    }
    if Encode(utf8, m) == Some(b) {
      WrittenReads(utf8, m, b);
    }
  }

  /** What an encoded initialisation decodes to: the same users, strictly in order. */
  lemma InitializationIsOrdered(utf8: Utf8Check, users: seq<User>)
    requires Encode(utf8, Initialize(users)).Some?
    ensures var d := Decode(utf8, Encode(utf8, Initialize(users)).value);
            d.Some? && d.value.Initialize? && StrictlyOrdered(d.value.users) &&
              multiset(d.value.users) == multiset(users)
  {
    Bijection(utf8, Encode(utf8, Initialize(users)).value, Initialize(users));
    SortPermutes(users);
  }

  // ---------------------------------------------------------------- the encoder

  method EnsureUserOrder(utf8: Utf8Check, users: seq<User>) returns (ok: bool)
    ensures ok <==> AllValid(utf8, users) && StrictlyOrdered(users)
  {
    for i := 0 to |users|
      invariant forall j :: 0 <= j < i ==> Users(utf8).fits(users[j])
    {
      if !Users(utf8).fits(users[i]) {
        return false;
      }
    }
    for i := 0 to |users|
      invariant forall j :: 0 < j < i ==> Before(users[j - 1], users[j])
    {
      if i > 0 && !Before(users[i - 1], users[i]) {
        return false;
      }
    }
    ok := true;
  }

  method PutUsers(utf8: Utf8Check, users: seq<User>, buf: Bytes) returns (out: Bytes)
    ensures out == buf + EncodeFrom(Users(utf8), users, 0)
  {
    out := buf;
    for k := 0 to |users|
      invariant out + EncodeFrom(Users(utf8), users, k) == buf + EncodeFrom(Users(utf8), users, 0)
    {
      EncodeStep(Users(utf8), users, k, out, buf + EncodeFrom(Users(utf8), users, 0));
      out := out + Users(utf8).encode(users[k]);
    }
    assert out + [] == out;
  }

  method WriteUsers(utf8: Utf8Check, users: seq<User>) returns (r: Option<Bytes>)
    ensures r == Written(utf8, Initialize(users))
  {
    var canonical := SortUsers(users);
    var ok := EnsureUserOrder(utf8, canonical);
    if !ok || |canonical| > MAX_INITIAL_USERS {
      return None;
    }
    var out := PutUsers(utf8, canonical, Head(1) + BigEndian(|canonical|, 4));
    Assoc(Head(1), BigEndian(|canonical|, 4), EncodeFrom(Users(utf8), canonical, 0));
    r := Some(out);
  }

  /** One item behind the head, if it can be written. */
  method WriteOne<T>(f: Format<T>, op: byte, x: T) returns (r: Option<Bytes>)
    ensures r == if f.fits(x) then Some(Head(op) + f.encode(x)) else None
  {
    if !f.fits(x) {
      return None;
    }
    r := Some(Head(op) + f.encode(x));
  }

  method EncodeMutation(utf8: Utf8Check, m: Mutation) returns (r: Option<Bytes>)
    ensures r == Encode(utf8, m)
  {
    var out: Option<Bytes>;
    match m {
      case Initialize(users) => out := WriteUsers(utf8, users);
      case CreateUser(u) => out := WriteOne(Users(utf8), 2, u);
      case AlterUser(u) => out := WriteOne(Users(utf8), 3, u);
      case DropUser(name, ifExists) => out := WriteOne(Drops(utf8), 4, (name, ifExists));
    }
    if out.None? || |out.value| > MAX_BYTES {
      return None;
    }
    r := out;
  }

  // ---------------------------------------------------------------- the decoder

  /** A credential is its version byte and four fields that pass the test. */
  lemma CredentialFields(b: Bytes, pos: nat)
    ensures Credentials().read(b, pos) ==
              if !At(b, pos, [CREDENTIAL_VERSION]) then None
              else
                match Parts().read(b, pos + 1)
                case None => None
                case Some((p, end)) =>
                  if ValidCredential(MakeCredential(p)) then Some((MakeCredential(p), end)) else None
  {
  }

  class Reader {
    const bytes: Bytes
    var pos: nat

    constructor (bytes: Bytes)
      ensures this.bytes == bytes && pos == 0
    {
      this.bytes := bytes;
      pos := 0;
    }

    method Take(len: nat) returns (r: Option<Bytes>)
      modifies this
      ensures Follows(ReadFixed(bytes, old(pos), len), r, pos)
    {
      if pos + len > |bytes| {
        return None;
      }
      r := Some(bytes[pos..pos + len]);
      pos := pos + len;
    }

    method U32() returns (r: Option<nat>)
      modifies this
      ensures Follows(ReadU32(bytes, old(pos)), r, pos)
    {
      var raw := Take(4);
      if raw.None? {
        return None;
      }
      r := Some(FromBigEndian(raw.value));
    }

    method Blob() returns (r: Option<Bytes>)
      modifies this
      ensures Follows(ReadBlob(bytes, old(pos)), r, pos)
    {
      var len := U32();
      if len.None? {
        return None;
      }
      r := Take(len.value);
    }

    method Name(utf8: Utf8Check) returns (r: Option<Bytes>)
      modifies this
      ensures Follows(Username(utf8).read(bytes, old(pos)), r, pos)
    {
      r := Blob();
      if r.Some? && !(utf8(r.value) && ValidUsername(r.value)) {
        return None;
      }
    }

    method TakeCredentialParts() returns (r: Option<CredentialParts>)
      modifies this
      ensures Follows(Parts().read(bytes, old(pos)), r, pos)
    {
      var salt := Blob();
      if salt.None? {
        return None;
      }
      var iterations := U32();
      if iterations.None? {
        return None;
      }
      var stored := Take(32);
      if stored.None? {
        return None;
      }
      var server := Take(32);
      if server.None? {
        return None;
      }
      r := Some((salt.value, (iterations.value, (stored.value, server.value))));
    }

    method NextCredential() returns (r: Option<Credential>)
      modifies this
      ensures Follows(Credentials().read(bytes, old(pos)), r, pos)
    {
      CredentialFields(bytes, pos);
      var version := Take(1);
      if version.None? || version.value != [CREDENTIAL_VERSION] {
        return None;
      }
      var parts := TakeCredentialParts();
      if parts.None? || !ValidCredential(MakeCredential(parts.value)) {
        return None;
      }
      r := Some(MakeCredential(parts.value));
    }

    method NextUser(utf8: Utf8Check) returns (r: Option<User>)
      modifies this
      ensures Follows(Users(utf8).read(bytes, old(pos)), r, pos)
    {
      var name := Name(utf8);
      if name.None? {
        return None;
      }
      var credential := NextCredential();
      if credential.None? {
        return None;
      }
      r := Some(User(name.value, credential.value));
    }

    /** One item after another, each as its format reads it. */
    method NextMany<T>(f: Format<T>, count: nat) returns (r: Option<seq<T>>)
      modifies this
      ensures Follows(ReadMany(f, bytes, old(pos), count), r, pos)
    {
      var xs: seq<T> := [];
      ghost var start := pos;
      PrependNothing(ReadMany(f, bytes, start, count));
      for k := 0 to count
        invariant Prepend(xs, ReadMany(f, bytes, pos, count - k)) == ReadMany(f, bytes, start, count)
      {
        var x := f.read(bytes, pos);
        if x.None? {
          return None;
        }
        ReadStep(f, bytes, pos, count - k, xs, ReadMany(f, bytes, start, count));
        xs := xs + [x.value.0];
        pos := x.value.1;
      }
      assert xs + [] == xs;
      r := Some(xs);
    }
  }

  method DecodeMutation(utf8: Utf8Check, b: Bytes) returns (r: Option<Mutation>)
    ensures r == Decode(utf8, b)
  {
    if |b| > MAX_BYTES || |b| < 6 || b[..4] != MAGIC || b[4] != VERSION {
      return None;
    }
    var reader := new Reader(b);
    reader.pos := 6;
    var m := DecodeCommand(utf8, reader, b[5]);
    if m.None? || reader.pos != |b| {
      return None;
    }
    r := m;
  }

  method DecodeCommand(utf8: Utf8Check, reader: Reader, op: byte) returns (r: Option<Mutation>)
    requires reader.pos == 6
    modifies reader
    ensures Follows(ReadCommand(utf8, reader.bytes, op), r, reader.pos)
  {
    if op == 1 {
      r := DecodeUsers(utf8, reader);
    } else if op == 2 || op == 3 {
      var u := reader.NextUser(utf8);
      if u.None? {
        return None;
      }
      r := Some(if op == 2 then CreateUser(u.value) else AlterUser(u.value));
    } else if op == 4 {
      var name := reader.Name(utf8);
      if name.None? {
        return None;
      }
      var flag := reader.Take(1);
      if flag.None? || flag.value[0] > 1 {
        return None;
      }
      r := Some(DropUser(name.value, flag.value[0] == 1));
    } else {
      r := None;
    }
  }

  method DecodeUsers(utf8: Utf8Check, reader: Reader) returns (r: Option<Mutation>)
    requires reader.pos == 6
    modifies reader
    ensures Follows(ReadUsers(utf8, reader.bytes), r, reader.pos)
  {
    var count := reader.U32();
    if count.None? || count.value > MAX_INITIAL_USERS {
      return None;
    }
    var users := reader.NextMany(Users(utf8), count.value);
    if users.None? || !StrictlyOrdered(users.value) {
      return None;
    }
    r := Some(Initialize(users.value));
  }
}
