/** Where the reconciler's plans lead: every action makes progress, a deployment with a ready
    majority either reaches the desired topology or is stopped by the order of removals, and
    which of the two is decided by what is observed at the start. */
module Convergence {
  import opened Base
  import opened Wire
  import opened Membership
  import opened Operator
  import Progress

  // ---------------------------------------------------------------- what a choice is made on

  ghost predicate Apt(want: set<NodeId>, s: Situation, a: Action) {
    match a
    case Blocked(_) => false
    case Converged =>
      && want <= s.voters && s.Targets() <= want
      && s.removed !! s.running && s.running <= want && want <= s.running
    case RestartMember(id) => id in want - s.running && id in s.Targets()
    case CreateLearner(id) => id in want - s.running
    case AddLearner(id) => id in s.running - s.Targets() - s.removed
    case PromoteLearner(id) => id in want * s.learners * s.running
    case TransferLeadership(id) =>
      Undesired(want, s) != {} && s.leader == Least(Undesired(want, s)) && id in s.voters - {s.leader}
    case RemoveMember(id) =>
      && Undesired(want, s) != {} && id == Least(Undesired(want, s)) && id != s.leader
      && (id in s.voters ==> want <= s.voters * s.running && IsMajority(s.ready, s.voters - {id}))
    case StopRemoved(id) => id in s.removed * s.running
  }

  /** What every accepted, unobstructed observation satisfies. */
  ghost predicate Orderly(want: set<NodeId>, s: Situation) {
    && want !! s.removed && s.leader in s.voters
    && s.voters !! s.learners && s.voters !! s.removed && s.learners !! s.removed
  }

  lemma AdmissionIsApt(want: set<NodeId>, s: Situation, id: NodeId)
    requires Orderly(want, s) && id in want - s.voters && !Admission(s, id).Blocked?
    ensures Apt(want, s, Admission(s, id))
  {
  }

  lemma RemovalIsApt(want: set<NodeId>, floor: nat, s: Situation)
    requires Orderly(want, s) && want - s.voters == {} && Missing(want, s) == {} && Undesired(want, s) != {}
    requires !Removal(floor, s, Least(Undesired(want, s))).Blocked?
    ensures Apt(want, s, Removal(floor, s, Least(Undesired(want, s))))
  {
    AllDesiredRun(want, s);
  }

  lemma AllDesiredRun(want: set<NodeId>, s: Situation)
    requires want - s.voters == {} && Missing(want, s) == {}
    ensures want <= s.voters * s.running
  {
    forall x | x in want
      ensures x in s.voters * s.running
    {
      assert x !in want - s.voters && x !in Missing(want, s);
    }
  }

  lemma NothingLeft(want: set<NodeId>, s: Situation)
    requires want - s.voters == {} && Missing(want, s) == {} && Undesired(want, s) == {}
    requires s.removed * s.running == {} && Strays(want, s) == {}
    ensures Apt(want, s, Converged)
  {
    AllDesiredRun(want, s);
    forall x | x in want
      ensures x in s.voters
    {
      assert x !in want - s.voters;
    }
    forall x | x in s.Targets()
      ensures x in want
    {
      assert x !in Undesired(want, s);
    }
    forall x | x in s.running
      ensures x in want
    {
      assert x !in Strays(want, s) && x !in s.removed * s.running;
    }
  }

  lemma ChoiceIsApt(want: set<NodeId>, floor: nat, s: Situation)
    requires Orderly(want, s) && !Choose(want, floor, s).Blocked?
    ensures Apt(want, s, Choose(want, floor, s))
  {
    if Missing(want, s) == {} {
      if want - s.voters != {} {
        AdmissionIsApt(want, s, Least(want - s.voters));
      } else if Undesired(want, s) != {} {
        RemovalIsApt(want, floor, s);
      } else if s.removed * s.running == {} && Strays(want, s) == {} {
        NothingLeft(want, s);
      }
    }
  }

  // ---------------------------------------------------------------- every action makes progress

  /** The action has been carried out; nothing is said about who is ready. */
  ghost predicate Moves(s: Situation, a: Action, s': Situation) {
    && s'.voters == (match a
                     case PromoteLearner(id) => s.voters + {id}
                     case RemoveMember(id) => s.voters - {id}
                     case _ => s.voters)
    && s'.learners == (match a
                       case AddLearner(id) => s.learners + {id}
                       case PromoteLearner(id) => s.learners - {id}
                       case RemoveMember(id) => s.learners - {id}
                       case _ => s.learners)
    && s'.removed == (match a case RemoveMember(id) => s.removed + {id} case _ => s.removed)
    && s'.running == StillRunning(s.running, a)
    && s'.leader == (match a case TransferLeadership(id) => id case _ => s.leader)
  }

  function StillRunning(running: set<NodeId>, a: Action): set<NodeId> {
    match a
    case CreateLearner(id) => running + {id}
    case RestartMember(id) => running + {id}
    case StopRemoved(id) => running - {id}
    case _ => running
  }

  /** Promotions, admissions, starts, stops and removals left; a stray is admitted, then removed. */
  ghost function Work(want: set<NodeId>, s: Situation): nat {
    |want - s.voters| + |want - s.Targets()| + |want - s.running| + |s.running - want| +
    |Undesired(want, s)| + 2 * |Strays(want, s)|
  }

  ghost predicate LeaderGoesFirst(want: set<NodeId>, s: Situation) {
    Undesired(want, s) != {} && Least(Undesired(want, s)) == s.leader
  }

  /** The lexicographic pair (work left, the leader is the first to be removed) as one number. */
  ghost function Measure(want: set<NodeId>, s: Situation): nat {
    2 * Work(want, s) + if LeaderGoesFirst(want, s) then 1 else 0
  }

  lemma StartsDropWork(want: set<NodeId>, s: Situation, a: Action, s': Situation)
    requires Apt(want, s, a) && Moves(s, a, s') && (a.RestartMember? || a.CreateLearner?)
    ensures Work(want, s') < Work(want, s)
  {
    assert want - s'.running == (want - s.running) - {a.id};
    assert s'.running - want == s.running - want;
    assert Strays(want, s') == Strays(want, s);
  }

  lemma DesiredAdmissionDropsWork(want: set<NodeId>, s: Situation, a: Action, s': Situation)
    requires Apt(want, s, a) && Moves(s, a, s') && a.AddLearner? && a.id in want
    ensures Work(want, s') < Work(want, s)
  {
    assert want - s'.Targets() == (want - s.Targets()) - {a.id};
    assert Undesired(want, s') == Undesired(want, s);
    assert Strays(want, s') == Strays(want, s);
  }

  lemma StrayAdmissionDropsWork(want: set<NodeId>, s: Situation, a: Action, s': Situation)
    requires Apt(want, s, a) && Moves(s, a, s') && a.AddLearner? && a.id !in want
    ensures Work(want, s') < Work(want, s)
  {
    assert want - s'.Targets() == want - s.Targets();
    assert Undesired(want, s') == Undesired(want, s) + {a.id};
    assert Strays(want, s') == Strays(want, s) - {a.id};
  }

  lemma AdmissionDropsWork(want: set<NodeId>, s: Situation, a: Action, s': Situation)
    requires Apt(want, s, a) && Moves(s, a, s') && a.AddLearner?
    ensures Work(want, s') < Work(want, s)
  {
    if a.id in want {
      DesiredAdmissionDropsWork(want, s, a, s');
    } else {
      StrayAdmissionDropsWork(want, s, a, s');
    }
  }

  lemma PromotionDropsWork(want: set<NodeId>, s: Situation, a: Action, s': Situation)
    requires Apt(want, s, a) && Moves(s, a, s') && a.PromoteLearner? && s.voters !! s.learners
    ensures Work(want, s') < Work(want, s)
  {
    assert want - s'.voters == (want - s.voters) - {a.id};
    assert s'.Targets() == s.Targets();
  }

  lemma RemovalDropsWork(want: set<NodeId>, s: Situation, a: Action, s': Situation)
    requires Apt(want, s, a) && Moves(s, a, s') && a.RemoveMember?
    ensures Work(want, s') < Work(want, s)
  {
    RemovalSets(want, s, a, s');
  }

  lemma RemovalSets(want: set<NodeId>, s: Situation, a: Action, s': Situation)
    requires Apt(want, s, a) && Moves(s, a, s') && a.RemoveMember?
    ensures want - s'.voters == want - s.voters && want - s'.Targets() == want - s.Targets()
    ensures Undesired(want, s') == Undesired(want, s) - {a.id} && a.id in Undesired(want, s)
    ensures s'.running == s.running && Strays(want, s') == Strays(want, s)
  {
  }

  lemma StopDropsWork(want: set<NodeId>, s: Situation, a: Action, s': Situation)
    requires Apt(want, s, a) && Moves(s, a, s') && a.StopRemoved? && want !! s.removed
    ensures Work(want, s') < Work(want, s)
  {
    assert a.id !in want;
    assert want - s'.running == want - s.running;
    assert s'.running - want == (s.running - want) - {a.id};
    assert Strays(want, s') == Strays(want, s);
  }

  lemma AptDropsMeasure(want: set<NodeId>, s: Situation, a: Action, s': Situation)
    requires Orderly(want, s) && Apt(want, s, a) && Moves(s, a, s') && !a.Converged?
    ensures Measure(want, s') < Measure(want, s)
    ensures Work(want, s') < Work(want, s) || (a.TransferLeadership? && Work(want, s') == Work(want, s))
  {
    match a {
      case RestartMember(_) => StartsDropWork(want, s, a, s');
      case CreateLearner(_) => StartsDropWork(want, s, a, s');
      case AddLearner(_) => AdmissionDropsWork(want, s, a, s');
      case PromoteLearner(_) => PromotionDropsWork(want, s, a, s');
      case RemoveMember(_) => RemovalDropsWork(want, s, a, s');
      case StopRemoved(_) => StopDropsWork(want, s, a, s');
      case TransferLeadership(_) =>
        assert Undesired(want, s') == Undesired(want, s);
    }
  }

  /** The deployment after the action: the membership has gone through its transitions, the
      process was started or stopped and the leader stays or was handed over. */
  ghost predicate CarriesOut(o: Observation, a: Action, o': Observation) {
    && (exists index :: CarriedOut(o.committed, a, index) == Ok(o'.committed))
    && o'.processes.Keys == StillRunning(o.processes.Keys, a)
    && o'.leader == (match a case TransferLeadership(id) => id case _ => o.leader)
  }

  lemma CarryingOutMoves(o: Observation, a: Action, o': Observation)
    requires Valid(o.committed) && o.committed.joint.None? && CarriesOut(o, a, o')
    ensures Moves(Situate(o), a, Situate(o'))
    ensures o'.committed.joint.None? && Valid(o'.committed) && o'.committed.generation <= o.committed.generation + 2
    ensures a.TransferLeadership? ==> o'.committed == o.committed
  {
    var index :| CarriedOut(o.committed, a, index) == Ok(o'.committed);
    CarriedOutMembership(o.committed, a, index);
  }

  lemma Unrefused(d: DesiredTopology, o: Observation)
    requires Refusal(d, o).None? && Obstacle(d, o).None?
    ensures Valid(o.committed) && o.committed.joint.None? && d.voters <= d.endpoints.Keys
    ensures Orderly(d.voters, Situate(o)) && 1 <= d.minimumVoters <= |d.voters|
    ensures Decide(d, o) == Choose(d.voters, d.minimumVoters, Situate(o))
  {
  }

  /** From every accepted, unobstructed observation, ready and caught up or not, each action
      other than Blocked and Converged strictly decreases the measure. */
  lemma ActionDropsMeasure(d: DesiredTopology, o: Observation, o': Observation)
    requires Refusal(d, o).None? && Obstacle(d, o).None?
    requires !Decide(d, o).Blocked? && !Decide(d, o).Converged? && CarriesOut(o, Decide(d, o), o')
    ensures Measure(d.voters, Situate(o')) < Measure(d.voters, Situate(o))
  {
    Unrefused(d, o);
    ChoiceIsApt(d.voters, d.minimumVoters, Situate(o));
    CarryingOutMoves(o, Decide(d, o), o');
    AptDropsMeasure(d.voters, Situate(o), Decide(d, o), Situate(o'));
  }

  // ---------------------------------------------------------------- a fit deployment

  /** A ready majority votes, desired processes that run are ready, what is ready has caught up
      with the leader, which keeps no progress of its own, and processes outside the membership
      started without a vote. Undesired voters may be down. */
  ghost predicate Fit(want: set<NodeId>, floor: nat, s: Situation) {
    && Orderly(want, s) && 1 <= floor <= |want|
    && IsMajority(s.ready, s.voters) && s.ready <= s.running
    && want * s.running <= s.ready && s.ready * s.Targets() - {s.leader} <= s.caughtUp
    && s.running - s.Targets() - s.removed <= s.nonVoting
  }

  /** The undesired voters that are removed before `x`. */
  ghost function Ahead(want: set<NodeId>, s: Situation, x: NodeId): set<NodeId> {
    set y | y in s.voters - want && Precedes(y, x) && y != x
  }

  /** The voters left once every desired voter votes and `x` and those ahead of it are gone. */
  ghost function LeftAfter(want: set<NodeId>, s: Situation, x: NodeId): set<NodeId> {
    s.voters + want - Ahead(want, s, x) - {x}
  }

  /** In the order of removals, each undesired voter leaves a ready majority behind, counting the
      desired voters as ready. */
  ghost predicate Drains(want: set<NodeId>, s: Situation) {
    forall x :: x in s.voters - want ==> IsMajority(s.ready + want, LeftAfter(want, s, x))
  }

  lemma MajorityGrows(ready: set<NodeId>, voters: set<NodeId>, id: NodeId)
    requires IsMajority(ready, voters) && id in ready && id !in voters
    ensures IsMajority(ready, voters + {id})
  {
    assert (voters + {id}) * ready == voters * ready + {id};
  }

  lemma SameVotes(votes: set<NodeId>, votes': set<NodeId>, voters: set<NodeId>)
    requires voters * votes == voters * votes'
    ensures IsMajority(votes, voters) <==> IsMajority(votes', voters)
  {
  }

  /** For the voter that goes first the order of removals asks what the plan asks. */
  lemma FirstLeavesMajorityIff(want: set<NodeId>, s: Situation, id: NodeId)
    requires want <= s.voters * s.ready && Undesired(want, s) != {}
    requires id == Least(Undesired(want, s)) && id in s.voters
    ensures IsMajority(s.ready + want, LeftAfter(want, s, id)) <==> IsMajority(s.ready, s.voters - {id})
  {
    NothingAhead(want, s, id);
    assert LeftAfter(want, s, id) == s.voters - {id};
    SameVotes(s.ready + want, s.ready, s.voters - {id});
  }

  lemma LeastPrecedes(s: set<NodeId>, y: NodeId)
    requires y in s
    ensures Precedes(Least(s), y)
  {
    HasLeast(s);
    OneLeast(s);
    var x :| IsLeast(x, s);
    assert IsLeast(Least(s), s);
  }

  lemma NothingAhead(want: set<NodeId>, s: Situation, id: NodeId)
    requires Undesired(want, s) != {} && id == Least(Undesired(want, s))
    ensures Ahead(want, s, id) == {}
  {
    forall y | y in s.voters - want && Precedes(y, id)
      ensures y == id
    {
      assert y in Undesired(want, s);
      LeastPrecedes(Undesired(want, s), y);
      LexAntisym(y, id);
    }
  }

  /** A removal is refused exactly for want of a ready majority among those who stay. */
  lemma RemovalBlockedIff(want: set<NodeId>, floor: nat, s: Situation, id: NodeId)
    requires Fit(want, floor, s) && want - s.voters == {} && Missing(want, s) == {} && id in s.Targets() - want
    ensures Removal(floor, s, id).Blocked? <==> id in s.voters && !IsMajority(s.ready, s.voters - {id})
    ensures Removal(floor, s, id).Blocked? ==> Removal(floor, s, id) == Blocked(RemovalUnsafe)
  {
    RemovalKeepsDesired(want, s.voters, id);
    var next := s.voters - {id};
    if IsMajority(s.ready, next) && id == s.leader {
      SomeoneReady(s.ready, next);
      var x :| x in next * s.ready;
      assert x in next * s.ready * s.caughtUp;
    }
  }

  lemma SomeoneReady(votes: set<NodeId>, voters: set<NodeId>)
    requires IsMajority(votes, voters)
    ensures voters * votes != {}
  {
  }

  /** The first voter to be removed is undesired, all desired ones vote, and without it no ready
      majority is left. */
  ghost predicate OrderBlocks(want: set<NodeId>, s: Situation) {
    && want <= s.voters * s.running && Undesired(want, s) != {}
    && var id := Least(Undesired(want, s)); id in s.voters && !IsMajority(s.ready, s.voters - {id})
  }

  lemma AdmissionNeverBlocked(want: set<NodeId>, floor: nat, s: Situation, id: NodeId)
    requires Fit(want, floor, s) && id in want - s.voters
    ensures !Admission(s, id).Blocked?
  {
    if id in s.learners && id in s.running {
      MajorityGrows(s.ready, s.voters, id);
    }
  }

  lemma AllDesiredVote(want: set<NodeId>, s: Situation)
    ensures want <= s.voters * s.running <==> want - s.voters == {} && Missing(want, s) == {}
  {
    if want - s.voters == {} && Missing(want, s) == {} {
      AllDesiredRun(want, s);
    }
  }

  /** On a fit deployment only the order of removals ever blocks. */
  lemma BlockedIff(want: set<NodeId>, floor: nat, s: Situation)
    requires Fit(want, floor, s)
    ensures Choose(want, floor, s).Blocked? <==> OrderBlocks(want, s)
    ensures Choose(want, floor, s).Blocked? ==> Choose(want, floor, s) == Blocked(RemovalUnsafe)
  {
    AllDesiredVote(want, s);
    if Missing(want, s) == {} {
      if want - s.voters != {} {
        AdmissionNeverBlocked(want, floor, s, Least(want - s.voters));
      } else if Undesired(want, s) != {} {
        RemovalBlockedIff(want, floor, s, Least(Undesired(want, s)));
      }
    }
  }

  lemma NeverBlocked(want: set<NodeId>, floor: nat, s: Situation)
    requires Fit(want, floor, s) && Drains(want, s)
    ensures !Choose(want, floor, s).Blocked?
  {
    BlockedIff(want, floor, s);
    if OrderBlocks(want, s) {
      FirstLeavesMajorityIff(want, s, Least(Undesired(want, s)));
    }
  }

  /** In numbers: the order blocks exactly when the first to be removed is a ready voter and the
      ready voters outnumber the others by one. */
  lemma OrderBlocksIff(want: set<NodeId>, floor: nat, s: Situation)
    requires Fit(want, floor, s) && want <= s.voters * s.running && Undesired(want, s) != {}
    ensures OrderBlocks(want, s) <==>
              Least(Undesired(want, s)) in s.voters * s.ready && |s.voters| == 2 * |s.voters - s.ready| + 1
  {
    var id := Least(Undesired(want, s));
    Counts(s.voters, s.ready);
    if id in s.voters {
      Counts(s.voters - {id}, s.ready);
      if id in s.ready {
        assert (s.voters - {id}) - s.ready == s.voters - s.ready;
      } else {
        assert (s.voters - {id}) - s.ready == (s.voters - s.ready) - {id};
      }
    }
  }

  lemma Counts(voters: set<NodeId>, ready: set<NodeId>)
    ensures |voters| == |voters * ready| + |voters - ready|
    ensures IsMajority(ready, voters) <==> |voters| > 2 * |voters - ready|
  {
    assert voters == voters * ready + (voters - ready);
  }

  /** Fewer undesired voters down than desired ones wanted is enough for the order to work. */
  lemma FewDownDrains(want: set<NodeId>, s: Situation)
    requires |s.voters - want - s.ready| < |want|
    ensures Drains(want, s)
  {
    forall x | x in s.voters - want
      ensures IsMajority(s.ready + want, LeftAfter(want, s, x))
    {
      var left := LeftAfter(want, s, x);
      Counts(left, s.ready + want);
      SubsetSize(left - (s.ready + want), s.voters - want - s.ready);
      assert want + (left - (s.ready + want)) <= left;
      SubsetSize(want + (left - (s.ready + want)), left);
    }
  }

  // ---------------------------------------------------------------- one action later

  /** Desired processes are ready again and caught up, and nobody who was ready has gone down. */
  ghost predicate Settles(want: set<NodeId>, s: Situation, a: Action, s': Situation) {
    && want * s'.running <= s'.ready <= s'.running
    && s.ready * s'.running <= s'.ready
    && s'.ready * s'.Targets() - {s'.leader} <= s'.caughtUp
    && s.nonVoting * s'.running <= s'.nonVoting
    && (a.CreateLearner? ==> a.id in s'.nonVoting)
  }

  lemma MajorityKept(ready: set<NodeId>, ready': set<NodeId>, voters: set<NodeId>)
    requires IsMajority(ready, voters) && voters * ready <= ready'
    ensures IsMajority(ready', voters)
  {
    SubsetSize(voters * ready, voters * ready');
  }

  lemma MoveKeepsMajority(want: set<NodeId>, floor: nat, s: Situation, a: Action, s': Situation)
    requires Fit(want, floor, s) && Apt(want, s, a) && Moves(s, a, s') && Settles(want, s, a, s')
    ensures IsMajority(s'.ready, s'.voters)
  {
    match a {
      case PromoteLearner(id) =>
        MajorityGrows(s.ready, s.voters, id);
        MajorityKept(s.ready, s'.ready, s'.voters);
      case RemoveMember(id) =>
        if id !in s.voters {
          assert s'.voters == s.voters;
        }
        MajorityKept(s.ready, s'.ready, s'.voters);
      case _ => MajorityKept(s.ready, s'.ready, s.voters);
    }
  }

  lemma MoveKeepsFit(want: set<NodeId>, floor: nat, s: Situation, a: Action, s': Situation)
    requires Fit(want, floor, s) && Apt(want, s, a) && Moves(s, a, s') && Settles(want, s, a, s')
    ensures Fit(want, floor, s')
  {
    MoveKeepsMajority(want, floor, s, a, s');
  }

  /** Nobody who is left when `x` goes was touched by the action. */
  lemma SameLeftAfter(want: set<NodeId>, s: Situation, a: Action, s': Situation, x: NodeId)
    requires Orderly(want, s) && Apt(want, s, a) && Moves(s, a, s') && x in s'.voters - want
    ensures x in s.voters - want && LeftAfter(want, s', x) == LeftAfter(want, s, x)
  {
    if a.RemoveMember? {
      assert x in Undesired(want, s);
      LeastPrecedes(Undesired(want, s), x);
    }
  }

  /** Readiness of undesired voters has not changed. */
  ghost predicate Steady(want: set<NodeId>, s: Situation, s': Situation) {
    (s'.voters - want) * s'.ready <= s.ready
  }

  lemma MoveKeepsDrains(want: set<NodeId>, s: Situation, a: Action, s': Situation)
    requires Orderly(want, s) && s.ready <= s.running && Apt(want, s, a) && Moves(s, a, s') && Settles(want, s, a, s')
    requires Drains(want, s)
    ensures Drains(want, s')
  {
    forall x | x in s'.voters - want
      ensures IsMajority(s'.ready + want, LeftAfter(want, s', x))
    {
      SameLeftAfter(want, s, a, s', x);
      MajorityKept(s.ready + want, s'.ready + want, LeftAfter(want, s, x));
    }
  }

  lemma MoveKeepsJam(want: set<NodeId>, s: Situation, a: Action, s': Situation)
    requires Orderly(want, s) && s.ready <= s.running && want * s.running <= s.ready
    requires Apt(want, s, a) && Moves(s, a, s') && Settles(want, s, a, s') && Steady(want, s, s')
    requires Drains(want, s')
    ensures Drains(want, s)
  {
    forall x | x in s.voters - want
      ensures IsMajority(s.ready + want, LeftAfter(want, s, x))
    {
      if x in s'.voters {
        SameLeftAfter(want, s, a, s', x);
        LeftAreSteady(want, s, a, s', x);
        MajorityKept(s'.ready + want, s.ready + want, LeftAfter(want, s, x));
      } else {
        FirstLeavesMajorityIff(want, s, x);
      }
    }
  }

  lemma LeftAreSteady(want: set<NodeId>, s: Situation, a: Action, s': Situation, x: NodeId)
    requires Apt(want, s, a) && Moves(s, a, s') && Steady(want, s, s')
    requires LeftAfter(want, s', x) == LeftAfter(want, s, x)
    ensures LeftAfter(want, s, x) * (s'.ready + want) <= s.ready + want
  {
  }

  // ---------------------------------------------------------------- whole observations

  /** The action has been carried out undisturbed: started processes come from the inventory,
      other processes kept their identity, desired processes are ready, nobody who was ready has
      gone down, and what is ready has caught up with the new authority. */
  ghost predicate Executes(d: DesiredTopology, o: Observation, a: Action, o': Observation) {
    && CarriesOut(o, a, o')
    && o'.cluster == o.cluster && o'.acceptedRevision == o.acceptedRevision
    && o'.term != 0 && o'.committed.configIndex <= o'.authorityIndex != 0 && !o'.transitionPending
    && (forall id :: id in o.processes && id in o'.processes ==> SameIdentity(o.processes[id], o'.processes[id]))
    && (forall id :: id in o'.processes && id !in o.processes ==>
          Belongs(d, id, o'.processes[id]) && (a.CreateLearner? ==> o'.processes[id].learnerBootstrap))
    && d.voters * o'.processes.Keys <= Ready(o') && Ready(o) * o'.processes.Keys <= Ready(o')
    && o'.matched.Keys <= ReplicationTargets(o'.committed)
    && Ready(o') * ReplicationTargets(o'.committed) - {o'.leader} <= CaughtUp(o')
  }

  predicate SameIdentity(p: Process, q: Process) {
    p.cluster == q.cluster && p.endpoint == q.endpoint && p.learnerBootstrap == q.learnerBootstrap
  }

  lemma NonVotingKept(d: DesiredTopology, o: Observation, a: Action, o': Observation)
    requires Executes(d, o, a, o')
    ensures NonVoting(o) * o'.processes.Keys <= NonVoting(o')
    ensures a.CreateLearner? && a.id !in o.processes ==> a.id in NonVoting(o')
  {
    forall id | id in NonVoting(o) && id in o'.processes
      ensures id in NonVoting(o')
    {
      assert SameIdentity(o.processes[id], o'.processes[id]);
    }
  }

  lemma ExecutionSettles(d: DesiredTopology, o: Observation, a: Action, o': Observation)
    requires Valid(o.committed) && o.committed.joint.None? && Executes(d, o, a, o')
    requires a.CreateLearner? ==> a.id !in o.processes
    ensures Settles(d.voters, Situate(o), a, Situate(o'))
  {
    CarryingOutMoves(o, a, o');
    NonVotingKept(d, o, a, o');
  }

  ghost predicate AllBelong(d: DesiredTopology, processes: map<NodeId, Process>) {
    forall id :: id in processes ==> Belongs(d, id, processes[id])
  }

  lemma StillBelong(d: DesiredTopology, o: Observation, a: Action, o': Observation)
    requires AllBelong(d, o.processes) && Executes(d, o, a, o')
    ensures AllBelong(d, o'.processes) && o'.processes.Keys <= d.endpoints.Keys
  {
    forall id | id in o'.processes
      ensures Belongs(d, id, o'.processes[id])
    {
      if id in o.processes {
        assert SameIdentity(o.processes[id], o'.processes[id]) && Belongs(d, id, o.processes[id]);
      }
    }
  }

  lemma StillManaged(d: DesiredTopology, s: Situation, a: Action, s': Situation)
    requires Apt(d.voters, s, a) && Moves(s, a, s')
    requires s.Targets() <= d.endpoints.Keys && s.running <= d.endpoints.Keys && d.voters <= d.endpoints.Keys
    ensures s'.Targets() <= d.endpoints.Keys
  {
  }

  lemma NoObstacleIff(d: DesiredTopology, o: Observation)
    requires o.committed.joint.None?
    ensures Obstacle(d, o).None? <==>
              && 0 != o.authorityIndex >= o.committed.configIndex && o.term != 0 && o.leader in o.committed.voters
              && !o.transitionPending && AllBelong(d, o.processes)
              && ReplicationTargets(o.committed) <= d.endpoints.Keys && d.voters !! o.committed.removed
              && IsMajority(Ready(o), o.committed.voters)
  {
  }

  lemma StillUnobstructed(d: DesiredTopology, o: Observation, a: Action, o': Observation)
    requires Obstacle(d, o).None? && o.committed.joint.None? && d.voters <= d.endpoints.Keys
    requires Executes(d, o, a, o') && o'.committed.joint.None?
    requires Moves(Situate(o), a, Situate(o')) && Apt(d.voters, Situate(o), a)
    requires Fit(d.voters, d.minimumVoters, Situate(o'))
    ensures Obstacle(d, o').None?
    ensures o'.processes.Keys <= d.endpoints.Keys && ReplicationTargets(o'.committed) <= d.endpoints.Keys
  {
    NoObstacleIff(d, o);
    StillBelong(d, o, a, o');
    StillManaged(d, Situate(o), a, Situate(o'));
    NoObstacleIff(d, o');
  }

  lemma StillAccepted(d: DesiredTopology, o: Observation, o': Observation)
    requires Refusal(d, o).None? && Valid(o'.committed) && o'.cluster == o.cluster &&
             o'.acceptedRevision == o.acceptedRevision
    requires o'.processes.Keys <= d.endpoints.Keys && ReplicationTargets(o'.committed) <= d.endpoints.Keys
    requires o'.matched.Keys <= ReplicationTargets(o'.committed)
    ensures Refusal(d, o').None?
  {
    SubsetSize(o'.processes.Keys, d.endpoints.Keys);
    SubsetSize(ReplicationTargets(o'.committed), d.endpoints.Keys);
    SubsetSize(o'.matched.Keys, ReplicationTargets(o'.committed));
    assert |o'.processes| == |o'.processes.Keys| && |o'.matched| == |o'.matched.Keys| &&
      |d.endpoints| == |d.endpoints.Keys|;
  }

  /** Accepted, unobstructed, fit, and with generations to spare. */
  ghost predicate Healthy(d: DesiredTopology, o: Observation) {
    && Refusal(d, o).None? && Obstacle(d, o).None?
    && Fit(d.voters, d.minimumVoters, Situate(o))
    && o.committed.generation + 2 * Work(d.voters, Situate(o)) <= U64_MAX
  }

  /** A serving cluster as its leader reports it is healthy: desired processes that run are ready,
      and every ready target but the leader itself, which is not listed, has caught up. */
  lemma ServingIsHealthy(d: DesiredTopology, o: Observation)
    requires Refusal(d, o).None? && Obstacle(d, o).None? && o.leader !in o.matched
    requires d.voters * o.processes.Keys <= Ready(o)
    requires forall id :: id in Ready(o) * ReplicationTargets(o.committed) && id != o.leader ==>
               id in o.matched && o.matched[id] >= o.authorityIndex
    requires o.processes.Keys - ReplicationTargets(o.committed) - o.committed.removed <= NonVoting(o)
    requires o.committed.generation + 2 * Work(d.voters, Situate(o)) <= U64_MAX
    ensures Healthy(d, o)
  {
    Unrefused(d, o);
    NoObstacleIff(d, o);
  }

  lemma HealthyChoice(d: DesiredTopology, o: Observation)
    requires Healthy(d, o) && !Decide(d, o).Blocked?
    ensures Decide(d, o) == Choose(d.voters, d.minimumVoters, Situate(o))
    ensures Apt(d.voters, Situate(o), Decide(d, o))
    ensures Valid(o.committed) && o.committed.joint.None? && d.voters <= d.endpoints.Keys
  {
    Unrefused(d, o);
    ChoiceIsApt(d.voters, d.minimumVoters, Situate(o));
  }

  /** Carrying out the planned action leaves the deployment healthy and the measure smaller. */
  lemma HealthyStep(d: DesiredTopology, o: Observation, o': Observation)
    requires Healthy(d, o) && Follows(d, o, o')
    ensures Healthy(d, o') && Measure(d.voters, Situate(o')) < Measure(d.voters, Situate(o))
    ensures Apt(d.voters, Situate(o), Decide(d, o)) && Moves(Situate(o), Decide(d, o), Situate(o'))
    ensures Settles(d.voters, Situate(o), Decide(d, o), Situate(o'))
  {
    var a := Decide(d, o);
    HealthyChoice(d, o);
    CarryingOutMoves(o, a, o');
    ExecutionSettles(d, o, a, o');
    MoveKeepsFit(d.voters, d.minimumVoters, Situate(o), a, Situate(o'));
    AptDropsMeasure(d.voters, Situate(o), a, Situate(o'));
    StillUnobstructed(d, o, a, o');
    StillAccepted(d, o, o');
  }

  /** Where every run ends: the voters are the desired ones, nobody is still learning, exactly
      the voters run and no tombstoned process is left. */
  lemma ConvergedMeansDone(d: DesiredTopology, o: Observation)
    requires Valid(o.committed) && Decide(d, o) == Converged
    ensures o.committed.voters == d.voters && o.committed.learners == {}
    ensures o.processes.Keys == d.voters && o.committed.removed !! o.processes.Keys
  {
    var s := Situate(o);
    SettledChoice(d.voters, d.minimumVoters, s);
    NothingLeft(d.voters, s);
    GoalReached(d.voters, s);
  }

  lemma GoalReached(want: set<NodeId>, s: Situation)
    requires Apt(want, s, Converged) && s.voters !! s.learners
    ensures s.voters == want && s.learners == {} && s.running == want
  {
    assert s.learners <= s.Targets() <= s.voters;
  }

  lemma SettledChoice(want: set<NodeId>, floor: nat, s: Situation)
    requires Choose(want, floor, s) == Converged
    ensures want - s.voters == {} && Missing(want, s) == {} && Undesired(want, s) == {}
    ensures s.removed * s.running == {} && Strays(want, s) == {}
  {
  }

  lemma AptHasWork(want: set<NodeId>, s: Situation, a: Action)
    requires Apt(want, s, a) && MembershipChange(a).Some? && s.voters !! s.learners
    ensures Work(want, s) >= 1
  {
    match a {
      case AddLearner(id) =>
        assert id in want - s.Targets() || id in Strays(want, s);
      case PromoteLearner(id) =>
        assert id in want - s.voters;
      case RemoveMember(_) =>
    }
  }

  lemma CanAdd(m: ClusterMembership, id: NodeId, index: nat)
    requires Valid(m) && m.joint.None? && id !in m.voters + m.learners + m.removed && m.generation + 2 <= U64_MAX
    ensures var r := CarriedOut(m, Action.AddLearner(id), index); r.Ok? && r.value.configIndex <= index + 1
  {
  }

  lemma CanPromote(m: ClusterMembership, id: NodeId, index: nat)
    requires Valid(m) && m.joint.None? && id in m.learners && m.generation + 2 <= U64_MAX
    ensures var r := CarriedOut(m, Action.PromoteLearner(id), index); r.Ok? && r.value.configIndex <= index + 1
  {
  }

  lemma CanRemove(m: ClusterMembership, id: NodeId, index: nat)
    requires Valid(m) && m.joint.None? && id in m.voters + m.learners && m.generation + 2 <= U64_MAX
    requires id in m.voters ==> |m.voters - {id}| >= 1
    ensures var r := CarriedOut(m, RemoveMember(id), index); r.Ok? && r.value.configIndex <= index + 1
  {
    if id in m.voters {
      assert |m.voters| == |m.voters - {id}| + 1;
    }
  }

  lemma CanCarryOut(want: set<NodeId>, s: Situation, m: ClusterMembership, a: Action, index: nat)
    requires Valid(m) && m.joint.None? && s.voters == m.voters && s.learners == m.learners && s.removed == m.removed
    requires Apt(want, s, a) && (MembershipChange(a).Some? ==> m.generation + 2 <= U64_MAX)
    ensures CarriedOut(m, a, index).Ok?
    ensures CarriedOut(m, a, index).value.configIndex <= if MembershipChange(a).Some? then index + 1 else m.configIndex
  {
    match a {
      case AddLearner(id) => CanAdd(m, id, index);
      case PromoteLearner(id) => CanPromote(m, id, index);
      case RemoveMember(id) =>
        if id in m.voters {
          SubsetSize((m.voters - {id}) * s.ready, m.voters - {id});
        }
        CanRemove(m, id, index);
      case _ =>
    }
  }

  /** A deployment after the action; undesired processes are as ready as before. */
  ghost function Carried(d: DesiredTopology, o: Observation, a: Action, m': ClusterMembership): Observation
    requires o.processes.Keys <= d.endpoints.Keys
    requires a.RestartMember? || a.CreateLearner? ==> a.id in d.endpoints
  {
    var now := o.authorityIndex + 1;
    var leader := match a case TransferLeadership(id) => id case _ => o.leader;
    Observation(
      o.cluster, o.acceptedRevision, leader, o.term, now, m', false,
      map id | id in StillRunning(o.processes.Keys, a) ::
        if id in o.processes then o.processes[id].(ready := id in Ready(o) || id in d.voters, applied := now)
        else Process(d.cluster, d.endpoints[id], true, true, now),
      map id | id in ReplicationTargets(m') - {leader} :: now)
  }

  lemma CarriedIsReady(d: DesiredTopology, o: Observation, a: Action, m': ClusterMembership)
    requires o.processes.Keys <= d.endpoints.Keys
    requires a.RestartMember? || a.CreateLearner? ==> a.id in d.endpoints
    ensures var o' := Carried(d, o, a, m');
            && CaughtUp(o') == o'.matched.Keys == ReplicationTargets(m') - {o'.leader}
            && d.voters * o'.processes.Keys <= Ready(o')
            && Ready(o) * o'.processes.Keys <= Ready(o')
            && Ready(o') <= Ready(o) + d.voters + (o'.processes.Keys - o.processes.Keys)
  {
  }

  lemma CarriedExecutes(d: DesiredTopology, o: Observation, a: Action, index: nat, m': ClusterMembership)
    requires o.processes.Keys <= d.endpoints.Keys && o.term != 0
    requires a.RestartMember? || a.CreateLearner? ==> a.id in d.endpoints
    requires CarriedOut(o.committed, a, index) == Ok(m') && m'.configIndex <= o.authorityIndex + 1
    ensures Executes(d, o, a, Carried(d, o, a, m'))
  {
    CarriedIsReady(d, o, a, m');
  }

  /** A planned action can always be carried out, also without any undesired voter coming back and
      with a leader that, as a running one does, reports the progress of all targets but itself. */
  lemma StepExists(d: DesiredTopology, o: Observation) returns (o': Observation)
    requires Healthy(d, o) && !Decide(d, o).Blocked?
    ensures Executes(d, o, Decide(d, o), o') && Steady(d.voters, Situate(o), Situate(o'))
    ensures o'.matched.Keys == ReplicationTargets(o'.committed) - {o'.leader}
  {
    var a, s := Decide(d, o), Situate(o);
    HealthyChoice(d, o);
    NoObstacleIff(d, o);
    if MembershipChange(a).Some? {
      AptHasWork(d.voters, s, a);
    }
    CanCarryOut(d.voters, s, o.committed, a, o.authorityIndex);
    var m' := CarriedOut(o.committed, a, o.authorityIndex).value;
    CarriedExecutes(d, o, a, o.authorityIndex, m');
    CarriedIsReady(d, o, a, m');
    o' := Carried(d, o, a, m');
  }

  ghost predicate Follows(d: DesiredTopology, o: Observation, o': Observation) {
    !Decide(d, o).Converged? && !Decide(d, o).Blocked? && Executes(d, o, Decide(d, o), o')
  }

  // ---------------------------------------------------------------- where runs end

  ghost predicate AtGoal(d: DesiredTopology, o: Observation) {
    && Decide(d, o) == Converged
    && o.committed.voters == d.voters && o.committed.learners == {}
    && o.processes.Keys == d.voters && o.committed.removed !! o.processes.Keys
  }

  /** Healthy, and the order of removals works out. */
  ghost predicate Draining(d: DesiredTopology, o: Observation) {
    Healthy(d, o) && Drains(d.voters, Situate(o))
  }

  /** Healthy, but the order of removals does not work out. */
  ghost predicate Jamming(d: DesiredTopology, o: Observation) {
    Healthy(d, o) && !Drains(d.voters, Situate(o))
  }

  ghost predicate Stuck(d: DesiredTopology, o: Observation) {
    Decide(d, o) == Blocked(RemovalUnsafe)
  }

  /** A step after which no undesired voter has become ready. */
  ghost predicate FollowsSteadily(d: DesiredTopology, o: Observation, o': Observation) {
    Follows(d, o, o') && Steady(d.voters, Situate(o), Situate(o'))
  }

  lemma DrainingChoice(d: DesiredTopology, o: Observation)
    requires Draining(d, o)
    ensures !Decide(d, o).Blocked?
  {
    Unrefused(d, o);
    NeverBlocked(d.voters, d.minimumVoters, Situate(o));
  }

  lemma DrainingFollows(d: DesiredTopology, o: Observation)
    requires Draining(d, o) && !AtGoal(d, o)
    ensures exists o' :: Follows(d, o, o')
  {
    DrainingChoice(d, o);
    if Decide(d, o).Converged? {
      HealthyChoice(d, o);
      ConvergedMeansDone(d, o);
    }
    var o' := StepExists(d, o);
    assert Follows(d, o, o');
  }

  lemma DrainingStep(d: DesiredTopology, o: Observation, o': Observation)
    requires Draining(d, o) && Follows(d, o, o')
    ensures Draining(d, o') && Measure(d.voters, Situate(o')) < Measure(d.voters, Situate(o))
  {
    HealthyStep(d, o, o');
    MoveKeepsDrains(d.voters, Situate(o), Decide(d, o), Situate(o'));
  }

  lemma JammingFollows(d: DesiredTopology, o: Observation)
    requires Jamming(d, o) && !Stuck(d, o)
    ensures exists o' :: FollowsSteadily(d, o, o')
  {
    Unrefused(d, o);
    BlockedIff(d.voters, d.minimumVoters, Situate(o));
    if Decide(d, o).Converged? {
      ConvergedMeansDone(d, o);
    }
    var o' := StepExists(d, o);
    assert FollowsSteadily(d, o, o');
  }

  lemma JammingStep(d: DesiredTopology, o: Observation, o': Observation)
    requires Jamming(d, o) && FollowsSteadily(d, o, o')
    ensures Jamming(d, o') && Measure(d.voters, Situate(o')) < Measure(d.voters, Situate(o))
  {
    HealthyStep(d, o, o');
    if Drains(d.voters, Situate(o')) {
      MoveKeepsJam(d.voters, Situate(o), Decide(d, o), Situate(o'));
    }
  }

  ghost function Following(d: DesiredTopology): (Observation, Observation) -> bool {
    (o, o') => Follows(d, o, o')
  }

  ghost function FollowingSteadily(d: DesiredTopology): (Observation, Observation) -> bool {
    (o, o') => FollowsSteadily(d, o, o')
  }

  ghost function Goal(d: DesiredTopology): Observation -> bool {
    o => AtGoal(d, o)
  }

  ghost function Jam(d: DesiredTopology): Observation -> bool {
    o => Stuck(d, o)
  }

  ghost function InDraining(d: DesiredTopology): Observation -> bool {
    o => Draining(d, o)
  }

  ghost function InJamming(d: DesiredTopology): Observation -> bool {
    o => Jamming(d, o)
  }

  ghost function Remaining(d: DesiredTopology): Observation -> nat {
    o => Measure(d.voters, Situate(o))
  }

  lemma DrainingNeverStops(d: DesiredTopology)
    ensures forall o :: InDraining(d)(o) && !Goal(d)(o) ==> exists o' :: Following(d)(o, o')
  {
    forall o | InDraining(d)(o) && !Goal(d)(o)
      ensures exists o' :: Following(d)(o, o')
    {
      DrainingFollows(d, o);
      var o' :| Follows(d, o, o');
      assert Following(d)(o, o');
    }
  }

  lemma DrainingGetsCloser(d: DesiredTopology)
    ensures forall o, o' :: InDraining(d)(o) && Following(d)(o, o') ==>
              InDraining(d)(o') && Remaining(d)(o') < Remaining(d)(o)
  {
    forall o, o' | InDraining(d)(o) && Following(d)(o, o')
      ensures InDraining(d)(o') && Remaining(d)(o') < Remaining(d)(o)
    {
      DrainingStep(d, o, o');
    }
  }

  lemma JammingNeverStops(d: DesiredTopology)
    ensures forall o :: InJamming(d)(o) && !Jam(d)(o) ==> exists o' :: FollowingSteadily(d)(o, o')
  {
    forall o | InJamming(d)(o) && !Jam(d)(o)
      ensures exists o' :: FollowingSteadily(d)(o, o')
    {
      JammingFollows(d, o);
      var o' :| FollowsSteadily(d, o, o');
      assert FollowingSteadily(d)(o, o');
    }
  }

  lemma JammingGetsCloser(d: DesiredTopology)
    ensures forall o, o' :: InJamming(d)(o) && FollowingSteadily(d)(o, o') ==>
              InJamming(d)(o') && Remaining(d)(o') < Remaining(d)(o)
  {
    forall o, o' | InJamming(d)(o) && FollowingSteadily(d)(o, o')
      ensures InJamming(d)(o') && Remaining(d)(o') < Remaining(d)(o)
    {
      JammingStep(d, o, o');
    }
  }

  /** A healthy, undisturbed deployment whose removals work out in their order reaches the desired
      topology however its plans are carried out, within as many actions as its measure says. */
  lemma Converges(d: DesiredTopology, o: Observation)
    requires Healthy(d, o) && Drains(d.voters, Situate(o))
    ensures Progress.Inevitable(Following(d), Goal(d), o, Remaining(d)(o))
  {
    DrainingNeverStops(d);
    DrainingGetsCloser(d);
    Progress.MeasureMakesInevitable(Following(d), Goal(d), InDraining(d), Remaining(d), o, Remaining(d)(o));
  }

  /** Every other healthy deployment ends in a blocked removal, unless an undesired voter that is
      down comes back. */
  lemma Jams(d: DesiredTopology, o: Observation)
    requires Healthy(d, o) && !Drains(d.voters, Situate(o))
    ensures Progress.Inevitable(FollowingSteadily(d), Jam(d), o, Remaining(d)(o))
  {
    JammingNeverStops(d);
    JammingGetsCloser(d);
    Progress.MeasureMakesInevitable(FollowingSteadily(d), Jam(d), InJamming(d), Remaining(d), o, Remaining(d)(o));
  }

  /** Replacing voters that have died: as long as fewer are down than desired, it converges. */
  lemma ReplacesDeadVoters(d: DesiredTopology, o: Observation)
    requires Healthy(d, o) && |o.committed.voters - d.voters - Ready(o)| < |d.voters|
    ensures Progress.Inevitable(Following(d), Goal(d), o, Remaining(d)(o))
  {
    FewDownDrains(d.voters, Situate(o));
    Converges(d, o);
  }

  // ---------------------------------------------------------------- a removal order that jams

  /** Where the order blocks, removing any undesired voter that is down would have been safe. */
  lemma OtherOrderIsSafe(want: set<NodeId>, floor: nat, s: Situation, x: NodeId)
    requires Fit(want, floor, s) && OrderBlocks(want, s) && x in s.voters - want - s.ready && x != s.leader
    ensures Choose(want, floor, s) == Blocked(RemovalUnsafe) && Removal(floor, s, x) == RemoveMember(x)
  {
    BlockedIff(want, floor, s);
    AllDesiredVote(want, s);
    MajorityWithout(s.ready, s.voters, x);
    RemovalBlockedIff(want, floor, s, x);
  }

  lemma MajorityWithout(ready: set<NodeId>, voters: set<NodeId>, x: NodeId)
    requires IsMajority(ready, voters) && x in voters - ready
    ensures IsMajority(ready, voters - {x})
  {
    assert (voters - {x}) * ready == voters * ready;
  }

  /** Five voters of whom `a` and `b` are desired and `x` and `y` are down. */
  function FiveVoters(a: NodeId, b: NodeId, c: NodeId, x: NodeId, y: NodeId): Situation {
    Situation({a, b, c, x, y}, {}, {}, {a, b, c}, {a, b, c}, {b, c}, {}, a)
  }

  /** If the third one that runs comes first in order, the removals jam. */
  lemma LiveVoterFirstJams(a: NodeId, b: NodeId, c: NodeId, x: NodeId, y: NodeId, floor: nat)
    requires a != b && c !in {a, b} && x !in {a, b, c} && y !in {a, b, c, x}
    requires Precedes(c, x) && Precedes(c, y) && 1 <= floor <= 2
    ensures var s := FiveVoters(a, b, c, x, y);
            Fit({a, b}, floor, s) && OrderBlocks({a, b}, s) && !Drains({a, b}, s)
  {
    var want, s := {a, b}, FiveVoters(a, b, c, x, y);
    FiveAreFit(a, b, c, x, y, floor);
    FirstOfThree(want, s, c, x, y);
    assert s.voters - s.ready == {x, y};
    OrderBlocksIff(want, floor, s);
    FirstLeavesMajorityIff(want, s, c);
  }

  lemma FiveAreFit(a: NodeId, b: NodeId, c: NodeId, x: NodeId, y: NodeId, floor: nat)
    requires a != b && c !in {a, b} && x !in {a, b, c} && y !in {a, b, c, x} && 1 <= floor <= 2
    ensures Fit({a, b}, floor, FiveVoters(a, b, c, x, y))
    ensures Undesired({a, b}, FiveVoters(a, b, c, x, y)) == {c, x, y}
  {
    var s := FiveVoters(a, b, c, x, y);
    assert s.voters * s.ready == {a, b, c};
  }

  lemma FirstOfThree(want: set<NodeId>, s: Situation, c: NodeId, x: NodeId, y: NodeId)
    requires Undesired(want, s) == {c, x, y} && Precedes(c, x) && Precedes(c, y)
    ensures Least(Undesired(want, s)) == c
  {
    LeastPrecedes(Undesired(want, s), c);
    LexAntisym(Least(Undesired(want, s)), c);
  }
}
