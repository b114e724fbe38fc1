/**
  Sequences of transactions against the voting contract. The host runs one
  transaction at a time; an aborted transaction leaves the store as it was.
  The lemmas here are the properties of whole histories: the invariant holds
  throughout, identifiers come out 1, 2, 3, ..., nothing stored is ever lost,
  and no voter is counted twice on one proposal.
 */
module VotingTrace {
  import opened VotingState
  import opened VotingContract
  import opened VotingInvariant

  /** One invocation of a public entry point, with the host's inputs made explicit. */
  datatype Call =
    | Create(title: string, description: string, now: nat)
    | Vote(id: nat, voteYes: bool, voter: Address, authorized: bool)
    | Close(id: nat)
    | ReadProposal(id: nat)
    | ReadStats

  /** What the caller observes. */
  datatype Reply =
    | Created(newId: nat)
    | Done
    | Found(proposal: Proposal)
    | Stats(stats: VotingStats)
    | Aborted(error: Error)

  /**
    Commits a successful transaction, or keeps the old store on abort: a
    `panic!` (lib.rs lines 96, 104 and 131) leaves no partial write.
   */
  function Commit<T>(s: Store, r: Result<T>, reply: Reply): (Store, Reply)
  {
    match r
    case Ok(s', _) => (s', reply)
    case Err(e) => (s, Aborted(e))
  }

  function Step(s: Store, c: Call): (r: (Store, Reply))
    ensures r.1.Aborted? ==> r.0 == s
    ensures c.ReadProposal? || c.ReadStats? ==> r.0 == s
    ensures r.1.Created? <==> c.Create?
    ensures c.Create? ==> r.1 == Created(Counter(s) + 1)
    ensures c.Create? ==> r.0 == CreateProposal(s, c.title, c.description, c.now).store
    ensures c.Vote? && CastVote(s, c.id, c.voteYes, c.voter, c.authorized).Err? ==>
      r == (s, Aborted(CastVote(s, c.id, c.voteYes, c.voter, c.authorized).error))
    ensures c.Close? && CloseProposal(s, c.id).Err? ==> r == (s, Aborted(CloseProposal(s, c.id).error))
    ensures c.Vote? && CastVote(s, c.id, c.voteYes, c.voter, c.authorized).Ok? ==>
      r == (CastVote(s, c.id, c.voteYes, c.voter, c.authorized).store, Done)
    ensures c.Close? && CloseProposal(s, c.id).Ok? ==> r == (CloseProposal(s, c.id).store, Done)
    ensures c.ReadProposal? ==> r.1 == Found(GetProposal(s, c.id))
    ensures c.ReadStats? ==> r.1 == Stats(GetVotingStats(s))
  {
    match c
    case Create(title, description, now) =>
      var r := CreateProposal(s, title, description, now);
      (r.store, Created(r.value))
    case Vote(id, voteYes, voter, authorized) =>
      Commit(s, CastVote(s, id, voteYes, voter, authorized), Done)
    case Close(id) =>
      Commit(s, CloseProposal(s, id), Done)
    case ReadProposal(id) =>
      (s, Found(GetProposal(s, id)))
    case ReadStats =>
      (s, Stats(GetVotingStats(s)))
  }

  /** Runs `calls` in order from `s`: the final store and one reply per call. */
  function Run(s: Store, calls: seq<Call>): (r: (Store, seq<Reply>))
    ensures |r.1| == |calls|
    decreases |calls|
  {
    if calls == [] then (s, [])
    else
      var (s1, reply) := Step(s, calls[0]);
      var (sf, replies) := Run(s1, calls[1..]);
      (sf, [reply] + replies)
  }

  /** The identifiers returned by the create calls among `replies`, in order. */
  function CreatedIds(replies: seq<Reply>): seq<nat>
  {
    if replies == [] then []
    else (if replies[0].Created? then [replies[0].newId] else []) + CreatedIds(replies[1..])
  }

  lemma {:induction false} StepPreservesInv(s: Store, c: Call)
    requires Inv(s)
    ensures Inv(Step(s, c).0)
  {
    match c
    case Create(title, description, now) =>
      CreatePreservesInv(s, title, description, now);
    case Vote(id, voteYes, voter, authorized) =>
      if CastVote(s, id, voteYes, voter, authorized).Ok? {
        CastVotePreservesInv(s, id, voteYes, voter, authorized);
      }
    case Close(id) =>
      if CloseProposal(s, id).Ok? {
        CloseProposalPreservesInv(s, id);
      }
    case ReadProposal(_) =>
    case ReadStats =>
  }

  lemma {:induction false} RunPreservesInv(s: Store, calls: seq<Call>)
    requires Inv(s)
    ensures Inv(Run(s, calls).0)
    decreases |calls|
  {
    if calls != [] {
      StepPreservesInv(s, calls[0]);
      RunPreservesInv(Step(s, calls[0]).0, calls[1..]);
    }
  }

  /**
    After any history of transactions on a fresh deployment the statistics
    balance, agree with the stored proposals, and the decrement in close has
    never been able to underflow.
   */
  lemma ReachableStatsBalanced(calls: seq<Call>, id: nat)
    ensures var s := Run(Empty, calls).0;
      var stats := GetVotingStats(s);
      && stats.activeProposals + stats.closedProposals == stats.totalProposals
      && stats.totalProposals == Counter(s) == |s.proposals|
      && stats.activeProposals == |ActiveIds(s)|
      && stats.closedProposals == |ClosedIds(s)|
      && CloseProposal(s, id) != Err(SubtractOverflow)
  {
    EmptyInv();
    RunPreservesInv(Empty, calls);
    var s := Run(Empty, calls).0;
    StatsMatchStore(s);
    CloseNeverUnderflows(s, id);
  }

  /** The counter moves only on create, and then by exactly one. */
  lemma StepCounter(s: Store, c: Call)
    ensures Counter(Step(s, c).0) == Counter(s) + (if c.Create? then 1 else 0)
  {
  }

  /**
    Creates return consecutive identifiers starting right after the counter
    at the start of the history: no gaps and no repeats.
   */
  lemma {:induction false} RunIdsSequential(s: Store, calls: seq<Call>)
    ensures var (sf, replies) := Run(s, calls);
      && Counter(s) <= Counter(sf)
      && |CreatedIds(replies)| == Counter(sf) - Counter(s)
      && forall i :: 0 <= i < |CreatedIds(replies)| ==> CreatedIds(replies)[i] == Counter(s) + 1 + i
    decreases |calls|
  {
    if calls != [] {
      var (s1, reply) := Step(s, calls[0]);
      StepCounter(s, calls[0]);
      RunIdsSequential(s1, calls[1..]);
      var (sf, replies) := Run(s1, calls[1..]);
      assert Run(s, calls).1 == [reply] + replies;
      assert ([reply] + replies)[1..] == replies;
    }
  }

  /** On a fresh deployment the k-th create returns k. */
  lemma IdsFromFreshDeployment(calls: seq<Call>)
    ensures var ids := CreatedIds(Run(Empty, calls).1);
      forall i :: 0 <= i < |ids| ==> ids[i] == i + 1
  {
    RunIdsSequential(Empty, calls);
  }

  /**
    `t` extends `s`: the counter and the receipts only grow, no proposal is
    removed, a stored proposal changes only in its tallies (which only grow)
    and its active flag (which only goes from open to closed), and a closed
    proposal does not change at all.
   */
  ghost predicate Grows(s: Store, t: Store)
  {
    && Counter(s) <= Counter(t)
    && s.voted <= t.voted
    && s.proposals.Keys <= t.proposals.Keys
    && forall id :: id in s.proposals ==> Extends(s.proposals[id], t.proposals[id])
  }

  ghost predicate Extends(p: Proposal, q: Proposal)
  {
    && p.yesVotes <= q.yesVotes
    && p.noVotes <= q.noVotes
    && q.(yesVotes := p.yesVotes, noVotes := p.noVotes, isActive := p.isActive) == p
    && (!p.isActive ==> q == p)
  }

  lemma StepGrows(s: Store, c: Call)
    requires Inv(s)
    ensures Grows(s, Step(s, c).0)
  {
  }

  lemma {:induction false} RunGrows(s: Store, calls: seq<Call>)
    requires Inv(s)
    ensures Grows(s, Run(s, calls).0)
    decreases |calls|
  {
    if calls != [] {
      var s1 := Step(s, calls[0]).0;
      StepGrows(s, calls[0]);
      StepPreservesInv(s, calls[0]);
      RunGrows(s1, calls[1..]);
      var sf := Run(s1, calls[1..]).0;
      forall id | id in s.proposals
        ensures Extends(s.proposals[id], sf.proposals[id])
      {
        assert Extends(s.proposals[id], s1.proposals[id]);
        assert Extends(s1.proposals[id], sf.proposals[id]);
      }
    }
  }

  /** Receipts are never removed, whatever the call and whatever the store. */
  lemma StepKeepsReceipts(s: Store, c: Call)
    ensures s.voted <= Step(s, c).0.voted
  {
  }

  /** Once (id, voter) holds a receipt, every later vote by that voter on that proposal aborts. */
  lemma {:induction false} ReceiptBlocksLaterVotes(s: Store, calls: seq<Call>, j: nat)
    requires j < |calls| && calls[j].Vote?
    requires HasVoted(s, calls[j].id, calls[j].voter)
    ensures Run(s, calls).1[j] ==
      Aborted(if calls[j].authorized then AlreadyVoted else Unauthorized)
    decreases j
  {
    var s1 := Step(s, calls[0]).0;
    if j == 0 {
    } else {
      StepKeepsReceipts(s, calls[0]);
      ReceiptBlocksLaterVotes(s1, calls[1..], j - 1);
    }
  }

  /** The reply to the first call comes from `Step`; the rest come from running the tail. */
  lemma RunUnfold(s: Store, calls: seq<Call>, k: nat)
    requires k < |calls|
    ensures k == 0 ==> Run(s, calls).1[k] == Step(s, calls[0]).1
    ensures k > 0 ==> Run(s, calls).1[k] == Run(Step(s, calls[0]).0, calls[1..]).1[k - 1]
  {
  }

  /**
    A voter's vote on a proposal is accepted at most once in any history:
    whatever `voteYes` says, a later attempt aborts with `AlreadyVoted`, or
    with `Unauthorized` when the voter did not sign it.
   */
  lemma {:induction false} VoteAcceptedAtMostOnce(s: Store, calls: seq<Call>, i: nat, j: nat)
    requires i < j < |calls|
    requires calls[i].Vote? && calls[j].Vote?
    requires calls[i].id == calls[j].id && calls[i].voter == calls[j].voter
    requires Run(s, calls).1[i] == Done
    ensures Run(s, calls).1[j] ==
      Aborted(if calls[j].authorized then AlreadyVoted else Unauthorized)
    decreases i
  {
    var s1 := Step(s, calls[0]).0;
    RunUnfold(s, calls, i);
    RunUnfold(s, calls, j);
    if i == 0 {
      var c := calls[0];
      assert CastVote(s, c.id, c.voteYes, c.voter, c.authorized).Ok?;
      assert HasVoted(s1, c.id, c.voter);
      ReceiptBlocksLaterVotes(s1, calls[1..], j - 1);
    } else {
      VoteAcceptedAtMostOnce(s1, calls[1..], i - 1, j - 1);
    }
  }

  /** A second close of the same proposal aborts with `AlreadyClosed`. */
  lemma CloseTwiceFails(s: Store, id: nat)
    requires CloseProposal(s, id).Ok?
    ensures CloseProposal(CloseProposal(s, id).store, id) == Err(AlreadyClosed)
  {
  }

  /** After an accepted vote, the same voter's next vote aborts with `AlreadyVoted`, either way. */
  lemma VoteTwiceFails(s: Store, id: nat, first: bool, second: bool, voter: Address)
    requires CastVote(s, id, first, voter, true).Ok?
    ensures CastVote(CastVote(s, id, first, voter, true).store, id, second, voter, true) == Err(AlreadyVoted)
  {
  }

  /**
    An identifier with nothing stored reads as the inactive sentinel, so a
    vote on it is rejected as closed and a close of it as already closed.
   */
  lemma MissingProposalRejected(s: Store, id: nat, voteYes: bool, voter: Address)
    requires id !in s.proposals
    requires !HasVoted(s, id, voter)
    ensures CastVote(s, id, voteYes, voter, true) == Err(ProposalClosed)
    ensures CloseProposal(s, id) == Err(AlreadyClosed)
  {
  }

  /** After a close, a voter who has not voted gets `ProposalClosed`. */
  lemma VoteAfterCloseFails(s: Store, id: nat, voteYes: bool, voter: Address)
    requires CloseProposal(s, id).Ok?
    requires !HasVoted(s, id, voter)
    ensures CastVote(CloseProposal(s, id).store, id, voteYes, voter, true) == Err(ProposalClosed)
  {
  }

  /**
    The walkthrough of a fresh deployment: create "Budget", vote yes, repeat
    the vote (aborted, so the next step starts from the same store), close,
    then a vote by someone else.
   */
  lemma BudgetScenario(voterA: Address, voterB: Address, t: nat)
    requires voterA != voterB
    ensures var created := CreateProposal(Empty, "Budget", "Approve 2024 budget", t);
      var voted := CastVote(created.store, 1, true, voterA, true);
      var closed := CloseProposal(voted.store, 1);
      && created.value == 1
      && GetVotingStats(created.store) == VotingStats(1, 1, 0)
      && voted.Ok?
      && GetProposal(voted.store, 1).yesVotes == 1
      && GetProposal(voted.store, 1).noVotes == 0
      && CastVote(voted.store, 1, true, voterA, true) == Err(AlreadyVoted)
      && closed.Ok?
      && !GetProposal(closed.store, 1).isActive
      && GetVotingStats(closed.store) == VotingStats(1, 0, 1)
      && CastVote(closed.store, 1, false, voterB, true) == Err(ProposalClosed)
  {
  }
}
