/** Raft cluster membership: voters, learners, joint consensus and tombstones. */
module Membership {
  import opened Base

  /** Identities are UTF-8 text, compared byte by byte. */
  type NodeId = Bytes

  datatype JointConfig = JointConfig(oldVoters: set<NodeId>, newVoters: set<NodeId>)

  datatype ClusterMembership = ClusterMembership(
    formatVersion: nat,
    generation: nat,
    configIndex: nat,
    voters: set<NodeId>,
    learners: set<NodeId>,
    joint: Option<JointConfig>,
    removed: set<NodeId>)

  const FORMAT_VERSION: nat := 1

  datatype MembershipError =
    | Invalid | AlreadyInJoint | NotInJoint | Tombstoned | AlreadyPresent | NotALearner | NotAMember
    | LastVoter | GenerationOverflow

  datatype Change =
    | AddNode(id: NodeId)
    | AddLearner(id: NodeId)
    | PromoteLearner(id: NodeId)
    | RemoveNode(id: NodeId)
    | FinalizeJoint

  type Outcome = Result<ClusterMembership, MembershipError>

  predicate Valid(m: ClusterMembership) {
    && m.formatVersion == FORMAT_VERSION
    && m.generation != 0
    && m.voters != {}
    && m.voters !! m.learners && m.voters !! m.removed && m.learners !! m.removed
    && (m.joint.Some? ==>
          var j := m.joint.value;
          && j.oldVoters != {} && j.newVoters != {}
          && j.oldVoters == m.voters
          && j.oldVoters !! m.removed && j.newVoters !! m.removed
          && (j.oldVoters + j.newVoters) !! m.learners)
  }

  function ReplicationTargets(m: ClusterMembership): set<NodeId> {
    m.learners + match m.joint
                 case Some(j) => j.oldVoters + j.newVoters
                 case None => m.voters
  }

  predicate IsVoter(m: ClusterMembership, id: NodeId) {
    match m.joint
    case Some(j) => id in j.oldVoters || id in j.newVoters
    case None => id in m.voters
  }

  predicate IsMajority(votes: set<NodeId>, voters: set<NodeId>) {
    |voters * votes| >= |voters| / 2 + 1
  }

  predicate HasVoteQuorum(m: ClusterMembership, votes: set<NodeId>) {
    match m.joint
    case Some(j) => IsMajority(votes, j.oldVoters) && IsMajority(votes, j.newVoters)
    case None => IsMajority(votes, m.voters)
  }

  function Checked(m: ClusterMembership): Outcome {
    if Valid(m) then Ok(m) else Err(Invalid)
  }

  /** Every transition starts from a valid stable configuration and bumps the generation. */
  function Refused(m: ClusterMembership): Option<MembershipError> {
    if !Valid(m) then Some(Invalid)
    else if m.joint.Some? then Some(AlreadyInJoint)
    else None
  }

  function AddLearnerTo(m: ClusterMembership, id: NodeId, index: nat): Outcome {
    if Refused(m).Some? then Err(Refused(m).value)
    else if id in m.removed then Err(Tombstoned)
    else if id in m.voters || id in m.learners then Err(AlreadyPresent)
    else if m.generation >= U64_MAX then Err(GenerationOverflow)
    else Checked(m.(generation := m.generation + 1, configIndex := index, learners := m.learners + {id}))
  }

  function BeginPromotion(m: ClusterMembership, id: NodeId, index: nat): Outcome {
    if Refused(m).Some? then Err(Refused(m).value)
    else if id !in m.learners then Err(NotALearner)
    else if m.generation >= U64_MAX then Err(GenerationOverflow)
    else Checked(m.(generation := m.generation + 1, configIndex := index, learners := m.learners - {id},
                    joint := Some(JointConfig(m.voters, m.voters + {id}))))
  }

  function BeginRemoval(m: ClusterMembership, id: NodeId, index: nat): Outcome {
    if Refused(m).Some? then Err(Refused(m).value)
    else if id in m.learners then
      if m.generation >= U64_MAX then Err(GenerationOverflow)
      else Checked(m.(generation := m.generation + 1, configIndex := index,
                      learners := m.learners - {id}, removed := m.removed + {id}))
    else if id !in m.voters then Err(NotAMember)
    else if |m.voters| <= 1 then Err(LastVoter)
    else if m.generation >= U64_MAX then Err(GenerationOverflow)
    else Checked(m.(generation := m.generation + 1, configIndex := index,
                    joint := Some(JointConfig(m.voters, m.voters - {id}))))
  }

  function Finalize(m: ClusterMembership, index: nat): Outcome {
    if m.joint.None? then Err(NotInJoint)
    else if m.generation >= U64_MAX then Err(GenerationOverflow)
    else
      var j := m.joint.value;
      Checked(m.(generation := m.generation + 1, configIndex := index, voters := j.newVoters,
                 removed := m.removed + (j.oldVoters - j.newVoters), joint := None))
  }

  function Transition(m: ClusterMembership, change: Change, index: nat): Outcome {
    match change
    case AddNode(id) => AddLearnerTo(m, id, index)
    case AddLearner(id) => AddLearnerTo(m, id, index)
    case PromoteLearner(id) => BeginPromotion(m, id, index)
    case RemoveNode(id) => BeginRemoval(m, id, index)
    case FinalizeJoint => Finalize(m, index)
  }

  // ---------------------------------------------------------------- what transitions keep

  /** Every identity a membership knows of: members of any kind and tombstones. */
  function Known(m: ClusterMembership): set<NodeId> {
    ReplicationTargets(m) + m.removed
  }

  /** An accepted change yields a valid membership of the next generation, and no identity is
      ever forgotten. Tombstones are permanent. */
  lemma TransitionKeeps(m: ClusterMembership, change: Change, index: nat)
    requires Transition(m, change, index).Ok?
    ensures var m' := Transition(m, change, index).value;
            && Valid(m') && m'.generation == m.generation + 1 && m'.configIndex == index
            && Known(m) <= Known(m') && m.removed <= m'.removed
  {
  }

  /** Two majorities of one set have a common member. */
  lemma MajoritiesMeet(a: set<NodeId>, b: set<NodeId>, voters: set<NodeId>)
    requires IsMajority(a, voters) && IsMajority(b, voters)
    ensures voters * a * b != {}
  {
    var x, y := voters * a, voters * b;
    assert |x| + |y| == |x + y| + |x * y|;
    SubsetSize(x + y, voters);
    assert x * y == voters * a * b;
  }

  lemma {:induction false} SubsetSize(a: set<NodeId>, b: set<NodeId>)
    requires a <= b
    ensures |a| <= |b|
  {
    assert b == a + (b - a);
  }

  /** Majorities of two voter sets that differ by one member meet: the sets may follow each
      other without a joint configuration ever losing the overlap. */
  lemma NeighbouringMajoritiesMeet(a: set<NodeId>, b: set<NodeId>, voters: set<NodeId>, id: NodeId)
    requires IsMajority(a, voters) && IsMajority(b, voters + {id})
    ensures voters * a * b != {}
  {
    var x, y := voters * a, (voters + {id}) * b;
    var all := voters + {id};
    assert |x| + |y| == |x + y| + |x * y|;
    SubsetSize(x + y, all);
    assert |all| <= |voters| + 1;
    assert x * y == voters * a * b;
  }
}
