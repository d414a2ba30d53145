/** The membership reconciler: one next action at a time from a desired topology and an
    observation, and the safety of what it plans. */
module Operator {
  import opened Base
  import opened Wire
  import opened Membership

  const OPERATOR_VERSION: nat := 1
  const MAX_OPERATOR_NODES: nat := 128

  datatype DesiredTopology = DesiredTopology(
    version: nat,
    cluster: Bytes,
    revision: nat,
    endpoints: map<NodeId, Bytes>,
    voters: set<NodeId>,
    minimumVoters: nat)

  datatype Process = Process(cluster: Bytes, endpoint: Bytes, learnerBootstrap: bool, ready: bool, applied: nat)

  datatype Observation = Observation(
    cluster: Bytes,
    acceptedRevision: nat,
    leader: NodeId,
    term: nat,
    authorityIndex: nat,
    committed: ClusterMembership,
    transitionPending: bool,
    processes: map<NodeId, Process>,
    matched: map<NodeId, nat>)

  datatype Reason =
    | NoAuthority | OutstandingTransition | ConflictingProcess | UnmanagedMember | TombstonedVoter
    | NoQuorum | NotNonVoting | NotCaughtUp | PromotionLacksQuorum | RemovalUnsafe | NoTransferTarget
    | UnmanagedBootstrap | VotersNotReady

  datatype Action =
    | Converged
    | Blocked(reason: Reason)
    | CreateLearner(id: NodeId)
    | RestartMember(id: NodeId)
    | AddLearner(id: NodeId)
    | PromoteLearner(id: NodeId)
    | TransferLeadership(id: NodeId)
    | RemoveMember(id: NodeId)
    | StopRemoved(id: NodeId)

  datatype OperatorError =
    | InvalidHeader | InvalidInventorySize | BelowVoterFloor | InvalidEndpoint | VoterNotInInventory
    | InvalidMembership | Stale | TooLarge

  datatype Plan = Plan(
    version: nat, cluster: Bytes, revision: nat, leader: NodeId, term: nat, generation: nat, action: Action)

  // ---------------------------------------------------------------- validation

  predicate TokenByte(c: byte) {
    0x30 <= c <= 0x39 || 0x41 <= c <= 0x5A || 0x61 <= c <= 0x7A || c == 0x2D || c == 0x5F || c == 0x2E
  }

  predicate ValidToken(s: Bytes) {
    s != [] && |s| <= 128 && forall i :: 0 <= i < |s| ==> TokenByte(s[i])
  }

  /** Neither ASCII white space nor an ASCII control byte. */
  predicate AddressByte(c: byte) {
    c > 0x20 && c != 0x7F
  }

  predicate ValidEndpoint(id: NodeId, address: Bytes) {
    ValidToken(id) && address != [] && |address| <= 253 && forall i :: 0 <= i < |address| ==> AddressByte(address[i])
  }

  /** Every identity and address is well formed, and no two identities share an address. */
  predicate ValidInventory(endpoints: map<NodeId, Bytes>) {
    && (forall id :: id in endpoints ==> ValidEndpoint(id, endpoints[id]))
    && (forall a, b :: a in endpoints && b in endpoints && endpoints[a] == endpoints[b] ==> a == b)
  }

  function Validation(d: DesiredTopology): Option<OperatorError> {
    if d.version != OPERATOR_VERSION || d.revision == 0 || !ValidToken(d.cluster) then Some(InvalidHeader)
    else if !(1 <= |d.endpoints| <= MAX_OPERATOR_NODES) then Some(InvalidInventorySize)
    else if !(1 <= d.minimumVoters <= |d.voters|) then Some(BelowVoterFloor)
    else if !ValidInventory(d.endpoints) then Some(InvalidEndpoint)
    else if !(d.voters <= d.endpoints.Keys) then Some(VoterNotInInventory)
    else None
  }

  /** Goes through the inventory with the set of addresses seen so far. */
  method Validate(d: DesiredTopology) returns (r: Option<OperatorError>)
    ensures r == Validation(d)
  {
    if d.version != OPERATOR_VERSION || d.revision == 0 || !ValidToken(d.cluster) {
      return Some(InvalidHeader);
    }
    if |d.endpoints| == 0 || |d.endpoints| > MAX_OPERATOR_NODES {
      return Some(InvalidInventorySize);
    }
    if d.minimumVoters == 0 || |d.voters| < d.minimumVoters {
      return Some(BelowVoterFloor);
    }
    var addresses: set<Bytes> := {};
    var todo := d.endpoints.Keys;
    while todo != {}
      invariant todo <= d.endpoints.Keys
      invariant addresses == set id | id in d.endpoints.Keys - todo :: d.endpoints[id]
      invariant forall id :: id in d.endpoints.Keys - todo ==> ValidEndpoint(id, d.endpoints[id])
      invariant forall a, b :: a in d.endpoints.Keys - todo && b in d.endpoints.Keys - todo ==>
                  d.endpoints[a] == d.endpoints[b] ==> a == b
      decreases |todo|
    {
      var id :| id in todo;
      if !ValidEndpoint(id, d.endpoints[id]) || d.endpoints[id] in addresses {
        return Some(InvalidEndpoint);
      }
      addresses := addresses + {d.endpoints[id]};
      todo := todo - {id};
    }
    if !(d.voters <= d.endpoints.Keys) {
      return Some(VoterNotInInventory);
    }
    r := None;
  }

  // ---------------------------------------------------------------- first in order

  lemma {:induction false} HasLeast(s: set<NodeId>)
    requires s != {}
    ensures exists x :: IsLeast(x, s)
  {
    var x :| x in s;
    var rest := s - {x};
    LexRefl(x);
    if rest == {} {
      assert s == {x};
      assert IsLeast(x, s);
    } else {
      HasLeast(rest);
      var y :| IsLeast(y, rest);
      LexTotal(x, y);
      if LexAtMost(x, y) {
        forall z | z in s
          ensures Precedes(x, z)
        {
          if z != x {
            assert Precedes(y, z);
            LexTrans(x, y, z);
          }
        }
        assert IsLeast(x, s);
      } else {
        assert IsLeast(y, s);
      }
    }
  }

  predicate Precedes(x: NodeId, y: NodeId) {
    LexAtMost(x, y)
  }

  predicate IsLeast(x: NodeId, s: set<NodeId>) {
    x in s && forall y {:trigger Precedes(x, y)} :: y in s ==> Precedes(x, y)
  }

  lemma OneLeast(s: set<NodeId>)
    ensures forall x, y :: IsLeast(x, s) && IsLeast(y, s) ==> x == y
  {
    forall x, y | IsLeast(x, s) && IsLeast(y, s)
      ensures x == y
    {
      assert Precedes(x, y) && Precedes(y, x);
      LexAntisym(x, y);
    }
  }

  /** The first identity of an ordered set. */
  function Least(s: set<NodeId>): (x: NodeId)
    requires s != {}
    ensures x in s
  {
    HasLeast(s);
    OneLeast(s);
    var x :| IsLeast(x, s);
    x
  }

  // ---------------------------------------------------------------- planning

  function Ready(o: Observation): set<NodeId> {
    set id | id in o.processes && o.processes[id].ready && o.processes[id].applied >= o.authorityIndex
  }

  function CaughtUp(o: Observation): set<NodeId> {
    set id | id in o.matched && o.matched[id] >= o.authorityIndex
  }

  function NonVoting(o: Observation): set<NodeId> {
    set id | id in o.processes && o.processes[id].learnerBootstrap
  }

  predicate Belongs(d: DesiredTopology, id: NodeId, p: Process) {
    p.cluster == d.cluster && id in d.endpoints && d.endpoints[id] == p.endpoint
  }

  function Obstacle(d: DesiredTopology, o: Observation): Option<Reason> {
    var m := o.committed;
    if o.authorityIndex == 0 || o.term == 0 || !IsVoter(m, o.leader) || m.configIndex > o.authorityIndex then
      Some(NoAuthority)
    else if o.transitionPending || m.joint.Some? then Some(OutstandingTransition)
    else if exists id :: id in o.processes && !Belongs(d, id, o.processes[id]) then Some(ConflictingProcess)
    else if !(ReplicationTargets(m) <= d.endpoints.Keys) then Some(UnmanagedMember)
    else if !(d.voters !! m.removed) then Some(TombstonedVoter)
    else if !HasVoteQuorum(m, Ready(o)) then Some(NoQuorum)
    else None
  }

  /** What the plan looks at once no obstacle stands: sets of identities and the leader. */
  datatype Situation = Situation(
    voters: set<NodeId>, learners: set<NodeId>, removed: set<NodeId>,
    running: set<NodeId>, ready: set<NodeId>, caughtUp: set<NodeId>, nonVoting: set<NodeId>,
    leader: NodeId)
  {
    function Targets(): set<NodeId> {
      voters + learners
    }
  }

  function Situate(o: Observation): Situation {
    Situation(o.committed.voters, o.committed.learners, o.committed.removed,
              o.processes.Keys, Ready(o), CaughtUp(o), NonVoting(o), o.leader)
  }

  function Missing(want: set<NodeId>, s: Situation): set<NodeId> {
    want * s.voters - s.running
  }

  function Undesired(want: set<NodeId>, s: Situation): set<NodeId> {
    s.Targets() - want
  }

  /** Running, not desired, and neither a member nor a tombstone. */
  function Strays(want: set<NodeId>, s: Situation): set<NodeId> {
    s.running - want - s.Targets() - s.removed
  }

  function Admission(s: Situation, id: NodeId): Action {
    if id !in s.running then (if id in s.learners then RestartMember(id) else CreateLearner(id))
    else if id !in s.learners then
      if id !in s.nonVoting then Blocked(NotNonVoting) else Action.AddLearner(id)
    else if id !in s.ready || id !in s.caughtUp then Blocked(NotCaughtUp)
    else if !IsMajority(s.ready, s.voters + {id}) then Blocked(PromotionLacksQuorum)
    else Action.PromoteLearner(id)
  }

  function Removal(floor: nat, s: Situation, id: NodeId): Action {
    if id !in s.voters then RemoveMember(id)
    else
      var next := s.voters - {id};
      if |next| < floor || !IsMajority(s.ready, next) then Blocked(RemovalUnsafe)
      else if id != s.leader then RemoveMember(id)
      else if next * s.ready * s.caughtUp == {} then Blocked(NoTransferTarget)
      else TransferLeadership(Least(next * s.ready * s.caughtUp))
  }

  function Choose(want: set<NodeId>, floor: nat, s: Situation): Action {
    if Missing(want, s) != {} then RestartMember(Least(Missing(want, s)))
    else if want - s.voters != {} then Admission(s, Least(want - s.voters))
    else if Undesired(want, s) != {} then Removal(floor, s, Least(Undesired(want, s)))
    else if s.removed * s.running != {} then StopRemoved(Least(s.removed * s.running))
    else if Strays(want, s) != {} then
      var id := Least(Strays(want, s));
      if id !in s.nonVoting then Blocked(UnmanagedBootstrap) else Action.AddLearner(id)
    else if !(want <= s.ready) then Blocked(VotersNotReady)
    else Converged
  }

  function Decide(d: DesiredTopology, o: Observation): Action {
    match Obstacle(d, o)
    case Some(reason) => Blocked(reason)
    case None => Choose(d.voters, d.minimumVoters, Situate(o))
  }

  function Refusal(d: DesiredTopology, o: Observation): Option<OperatorError> {
    if Validation(d).Some? then Validation(d)
    else if !Valid(o.committed) then Some(InvalidMembership)
    else if o.cluster != d.cluster || o.acceptedRevision != d.revision then Some(Stale)
    else if |o.processes| > MAX_OPERATOR_NODES || |o.matched| > MAX_OPERATOR_NODES ||
            |ReplicationTargets(o.committed)| > MAX_OPERATOR_NODES then Some(TooLarge)
    else None
  }

  function Reconcile(d: DesiredTopology, o: Observation): Result<Plan, OperatorError> {
    if Refusal(d, o).Some? then Err(Refusal(d, o).value)
    else Ok(Plan(OPERATOR_VERSION, d.cluster, d.revision, o.leader, o.term, o.committed.generation, Decide(d, o)))
  }

  // ---------------------------------------------------------------- carrying out an action

  function MembershipChange(a: Action): Option<Change> {
    match a
    case AddLearner(id) => Some(Change.AddLearner(id))
    case PromoteLearner(id) => Some(Change.PromoteLearner(id))
    case RemoveMember(id) => Some(RemoveNode(id))
    case _ => None
  }

  /** A membership action runs to its stable configuration: a joint one is finalised. */
  function CarriedOut(m: ClusterMembership, a: Action, index: nat): Outcome {
    match MembershipChange(a)
    case None => Ok(m)
    case Some(change) =>
      match Transition(m, change, index)
      case Err(e) => Err(e)
      case Ok(next) => if next.joint.Some? then Finalize(next, index + 1) else Ok(next)
  }

  // ---------------------------------------------------------------- safety of any plan

  lemma Removing(want: set<NodeId>, floor: nat, s: Situation)
    requires Choose(want, floor, s).RemoveMember? || Choose(want, floor, s) == Blocked(RemovalUnsafe)
    ensures want - s.voters == {} && Undesired(want, s) != {}
    ensures Choose(want, floor, s) == Removal(floor, s, Least(Undesired(want, s)))
  {
  }

  /** A planned removal is of an undesired member, comes after every desired voter votes, never
      takes the leader out as a voter, and leaves the floor and a ready majority standing. */
  lemma RemovalIsSafe(want: set<NodeId>, floor: nat, s: Situation)
    requires Choose(want, floor, s).RemoveMember?
    ensures var id := Choose(want, floor, s).id;
            && id in s.Targets() - want && want - s.voters == {}
            && (id in s.voters ==> id != s.leader && floor <= |s.voters - {id}| && IsMajority(s.ready, s.voters - {id}))
  {
    Removing(want, floor, s);
  }

  /** When a removal is refused as unsafe it is for want of ready survivors, never for the floor. */
  lemma FloorNeverBlocks(want: set<NodeId>, floor: nat, s: Situation)
    requires floor <= |want| && Choose(want, floor, s) == Blocked(RemovalUnsafe)
    ensures Undesired(want, s) != {}
    ensures var next := s.voters - {Least(Undesired(want, s))};
            floor <= |next| && !IsMajority(s.ready, next)
  {
    Removing(want, floor, s);
    RemovalKeepsDesired(want, s.voters, Least(Undesired(want, s)));
  }

  lemma RemovalKeepsDesired(want: set<NodeId>, voters: set<NodeId>, id: NodeId)
    requires want - voters == {} && id !in want
    ensures want <= voters - {id} && |want| <= |voters - {id}|
  {
    forall x | x in want
      ensures x in voters - {id}
    {
      assert x !in want - voters;
    }
    SubsetSize(want, voters - {id});
  }

  // ---------------------------------------------------------------- safety over every run

  lemma CarriedOutMembership(m: ClusterMembership, a: Action, index: nat)
    requires Valid(m) && m.joint.None? && CarriedOut(m, a, index).Ok?
    ensures var m' := CarriedOut(m, a, index).value;
            && Valid(m') && m'.joint.None? && m'.generation <= m.generation + 2
            && m'.voters == (match a
                             case PromoteLearner(id) => m.voters + {id}
                             case RemoveMember(id) => m.voters - {id}
                             case _ => m.voters)
            && m'.learners == (match a
                               case AddLearner(id) => m.learners + {id}
                               case PromoteLearner(id) => m.learners - {id}
                               case RemoveMember(id) => m.learners - {id}
                               case _ => m.learners)
            && m'.removed == (match a case RemoveMember(id) => m.removed + {id} case _ => m.removed)
            && (MembershipChange(a).None? ==> m' == m)
  {
    match a {
      case PromoteLearner(id) => PromotionCarriedOut(m, id, index);
      case RemoveMember(id) => RemovalCarriedOut(m, id, index);
      case _ =>
    }
  }

  lemma PromotionCarriedOut(m: ClusterMembership, id: NodeId, index: nat)
    requires Valid(m) && m.joint.None? && CarriedOut(m, Action.PromoteLearner(id), index).Ok?
    ensures var m' := CarriedOut(m, Action.PromoteLearner(id), index).value;
            && Valid(m') && m'.joint.None? && m'.generation <= m.generation + 2
            && m'.voters == m.voters + {id} && m'.learners == m.learners - {id} && m'.removed == m.removed
  {
    assert m.voters - (m.voters + {id}) == {};
  }

  lemma RemovalCarriedOut(m: ClusterMembership, id: NodeId, index: nat)
    requires Valid(m) && m.joint.None? && CarriedOut(m, RemoveMember(id), index).Ok?
    ensures var m' := CarriedOut(m, RemoveMember(id), index).value;
            && Valid(m') && m'.joint.None? && m'.generation <= m.generation + 2
            && m'.voters == m.voters - {id} && m'.learners == m.learners - {id} && m'.removed == m.removed + {id}
  {
    if id in m.voters {
      assert m.voters - (m.voters - {id}) == {id};
      assert m.learners - {id} == m.learners;
    } else {
      assert m.voters - {id} == m.voters;
    }
  }

  /** One planned membership change carried out, however the deployment looked then. */
  ghost predicate Planned(d: DesiredTopology, o: Observation, index: nat, m: ClusterMembership, m': ClusterMembership) {
    && o.committed == m && Reconcile(d, o).Ok? && m.joint.None?
    && CarriedOut(m, Reconcile(d, o).value.action, index) == Ok(m')
  }

  ghost predicate PlannedStep(d: DesiredTopology, m: ClusterMembership, m': ClusterMembership) {
    exists o, index :: Planned(d, o, index, m, m')
  }

  /** Desired voters stay, their tombstones do not grow, and others are removed only once every
      desired voter votes. */
  ghost predicate Forward(want: set<NodeId>, m: ClusterMembership, m': ClusterMembership) {
    && want * m.voters <= m'.voters
    && m'.removed * want <= m.removed <= m'.removed
    && (m'.removed != m.removed ==> want <= m'.voters)
  }

  /** The same for a whole observation. */
  lemma DecidedRemoval(d: DesiredTopology, o: Observation)
    requires Decide(d, o).RemoveMember?
    ensures Decide(d, o).id !in d.voters && d.voters - o.committed.voters == {}
    ensures var id, voters := Decide(d, o).id, o.committed.voters;
            id in voters ==> id != o.leader && d.minimumVoters <= |voters - {id}| && IsMajority(Ready(o), voters - {id})
  {
    RemovalIsSafe(d.voters, d.minimumVoters, Situate(o));
  }

  ghost predicate Neighbours(v: set<NodeId>, w: set<NodeId>) {
    w == v || exists id :: w == v + {id} || v == w + {id}
  }

  lemma MembershipForward(want: set<NodeId>, m: ClusterMembership, a: Action, index: nat)
    requires Valid(m) && m.joint.None? && CarriedOut(m, a, index).Ok?
    requires a.RemoveMember? ==> a.id !in want && want - m.voters == {}
    ensures var m' := CarriedOut(m, a, index).value; Forward(want, m, m') && Neighbours(m.voters, m'.voters)
  {
    var m' := CarriedOut(m, a, index).value;
    CarriedOutMembership(m, a, index);
    if a.RemoveMember? {
      VotersAfterRemoval(want, m.voters, a.id);
    } else if a.PromoteLearner? {
      assert m'.voters == m.voters + {a.id};
    }
  }

  lemma VotersAfterRemoval(want: set<NodeId>, voters: set<NodeId>, id: NodeId)
    requires id !in want && want - voters == {}
    ensures want <= voters - {id} && Neighbours(voters, voters - {id})
  {
    RemovalKeepsDesired(want, voters, id);
    if id in voters {
      assert voters == (voters - {id}) + {id};
    } else {
      assert voters - {id} == voters;
    }
  }

  lemma PlannedStepForward(d: DesiredTopology, m: ClusterMembership, m': ClusterMembership)
    requires PlannedStep(d, m, m')
    ensures Forward(d.voters, m, m') && Neighbours(m.voters, m'.voters)
  {
    var o, index :| Planned(d, o, index, m, m');
    var a := Decide(d, o);
    if a.RemoveMember? {
      DecidedRemoval(d, o);
    }
    MembershipForward(d.voters, m, a, index);
  }

  ghost predicate PlannedRun(d: DesiredTopology, ms: seq<ClusterMembership>) {
    forall i :: 0 < i < |ms| ==> PlannedStep(d, ms[i - 1], ms[i])
  }

  lemma {:induction false} ForwardChain(want: set<NodeId>, ms: seq<ClusterMembership>, i: nat, j: nat)
    requires i <= j < |ms| && forall k :: 0 < k < |ms| ==> Forward(want, ms[k - 1], ms[k])
    ensures Forward(want, ms[i], ms[j])
    decreases j
  {
    if i < j {
      ForwardChain(want, ms, i, j - 1);
      assert Forward(want, ms[j - 1], ms[j]);
    }
  }

  /** Along every run with one desired topology: a desired voter that votes keeps voting, no
      desired voter is tombstoned, and removals start only when all desired voters vote. */
  lemma RunsAreSafe(d: DesiredTopology, ms: seq<ClusterMembership>, i: nat, j: nat)
    requires PlannedRun(d, ms) && i <= j < |ms|
    ensures Forward(d.voters, ms[i], ms[j])
  {
    forall k | 0 < k < |ms|
      ensures Forward(d.voters, ms[k - 1], ms[k])
    {
      PlannedStepForward(d, ms[k - 1], ms[k]);
    }
    ForwardChain(d.voters, ms, i, j);
  }

  /** Every majority of one voter set of a run meets every majority of the next. */
  lemma SuccessiveMajoritiesMeet(d: DesiredTopology, ms: seq<ClusterMembership>, i: nat, a: set<NodeId>, b: set<NodeId>)
    requires PlannedRun(d, ms) && 0 < i < |ms|
    requires IsMajority(a, ms[i - 1].voters) && IsMajority(b, ms[i].voters)
    ensures a * b != {}
  {
    PlannedStepForward(d, ms[i - 1], ms[i]);
    NeighboursMeet(ms[i - 1].voters, ms[i].voters, a, b);
  }

  lemma NeighboursMeet(v: set<NodeId>, w: set<NodeId>, a: set<NodeId>, b: set<NodeId>)
    requires Neighbours(v, w)
    requires IsMajority(a, v) && IsMajority(b, w)
    ensures a * b != {}
  {
    if w == v {
      MajoritiesMeet(a, b, v);
      assert v * a * b <= a * b;
    } else {
      var id :| w == v + {id} || v == w + {id};
      if w == v + {id} {
        NeighbouringMajoritiesMeet(a, b, v, id);
        assert v * a * b <= a * b;
      } else {
        NeighbouringMajoritiesMeet(b, a, w, id);
        assert w * b * a <= a * b;
      }
    }
  }
}
