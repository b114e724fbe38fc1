/**
  The persistent state of the voting contract and its two read-only queries.

  The contract keeps four kinds of record in one instance store: the proposal
  counter, the singleton statistics record, one proposal per identifier, and
  one vote receipt per (proposal, voter) pair. `Store` holds exactly these,
  with the two singletons optional because the store starts empty and every
  read supplies its own default.
 */
module VotingState {

  /** A voter's on-ledger identity; only equality is ever used. */
  datatype Address = Address(key: string)

  /** Aggregate counts of proposals. */
  datatype VotingStats = VotingStats(
    totalProposals: nat,
    activeProposals: nat,
    closedProposals: nat
  )

  /** One voting proposal. */
  datatype Proposal = Proposal(
    proposalId: nat,
    title: string,
    description: string,
    yesVotes: nat,
    noVotes: nat,
    createdTime: nat,
    isActive: bool
  )

  /** The reasons a transaction aborts. */
  datatype Error =
    | Unauthorized      // the voter did not authorise the call
    | AlreadyVoted      // a receipt for (proposal, voter) exists
    | ProposalClosed    // the (possibly sentinel) proposal is inactive
    | AlreadyClosed     // close on an inactive or missing proposal
    | SubtractOverflow  // `active_proposals - 1` below zero

  /**
    The instance store. A receipt is stored only with the value `true`, so the
    set of receipt keys is the whole of what the contract can store there.
   */
  datatype Store = Store(
    counter: Option<nat>,
    stats: Option<VotingStats>,
    proposals: map<nat, Proposal>,
    voted: set<(nat, Address)>
  )

  datatype Option<T> = None | Some(value: T)

  /** The outcome of a transaction: the store to commit and the value returned, or the abort reason. */
  datatype Result<T> = Ok(store: Store, value: T) | Err(error: Error)

  /** A fresh deployment: nothing stored. */
  const Empty := Store(None, None, map[], {})

  const NotFoundText := "Not_Found"

  /** The record `get_proposal` returns for an identifier with nothing stored. */
  const NotFound := Proposal(0, NotFoundText, NotFoundText, 0, 0, 0, false)

  const ZeroStats := VotingStats(0, 0, 0)

  /** The last identifier handed out; an absent counter reads as 0 (`unwrap_or(0)`, lib.rs line 53). */
  function Counter(s: Store): nat
  {
    match s.counter
    case Some(c) => c
    case None => 0
  }

  /** Whether `voter` holds a receipt for `id`; an absent receipt reads as false (`unwrap_or(false)`, lib.rs line 92). */
  predicate HasVoted(s: Store, id: nat, voter: Address)
  {
    (id, voter) in s.voted
  }

  /**
    `get_proposal`: the stored record, or the inactive `Not_Found` sentinel
    with all numbers zero when nothing is stored under `id`.
   */
  function GetProposal(s: Store, id: nat): (r: Proposal)
    ensures id in s.proposals ==> r == s.proposals[id]
    ensures id !in s.proposals ==>
      && r.proposalId == 0
      && r.title == "Not_Found" && r.description == "Not_Found"
      && r.yesVotes == 0 && r.noVotes == 0
      && r.createdTime == 0
      && !r.isActive
    ensures r.isActive ==> id in s.proposals
  {
    if id in s.proposals then s.proposals[id] else NotFound
  }

  /** `get_voting_stats`: the stored record, or all zeros when none is stored. */
  function GetVotingStats(s: Store): (r: VotingStats)
    ensures s.stats.Some? ==> r == s.stats.value
    ensures s.stats.None? ==>
      r.totalProposals == 0 && r.activeProposals == 0 && r.closedProposals == 0
  {
    match s.stats
    case Some(st) => st
    case None => ZeroStats
  }
}
