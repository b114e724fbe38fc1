/**
  The global invariant of the voting contract's store, and its preservation by
  every successful transaction.

  Beyond `active + closed == total`, the invariant ties the statistics to the
  stored proposals themselves: identifiers are exactly 1..counter, the active
  count is the number of active stored proposals, and each proposal's tally
  is the number of distinct voters holding a receipt for it, so that no voter
  is counted twice.
 */
module VotingInvariant {
  import opened VotingState
  import opened VotingContract

  /** Identifiers of the stored proposals that are still open. */
  function ActiveIds(s: Store): set<nat>
  {
    set id | id in s.proposals && s.proposals[id].isActive
  }

  /** Identifiers of the stored proposals that have been closed. */
  function ClosedIds(s: Store): set<nat>
  {
    set id | id in s.proposals && !s.proposals[id].isActive
  }

  /** The voters holding a receipt for proposal `id`. */
  function VotersOf(s: Store, id: nat): set<Address>
  {
    set k | k in s.voted && k.0 == id :: k.1
  }

  /** The statistics balance and count every identifier handed out. */
  ghost predicate StatsBalanced(s: Store)
  {
    var stats := GetVotingStats(s);
    && stats.activeProposals + stats.closedProposals == stats.totalProposals
    && stats.totalProposals == Counter(s)
    && stats.activeProposals == |ActiveIds(s)|
  }

  /** The stored identifiers are exactly 1..counter, each stored under its own identifier. */
  ghost predicate IdsDense(s: Store)
  {
    && (forall id :: id in s.proposals <==> 1 <= id <= Counter(s))
    && (forall id :: id in s.proposals ==> s.proposals[id].proposalId == id)
  }

  /** Receipts exist only for stored proposals, and each tally counts each receipt holder once. */
  ghost predicate TalliesMatchReceipts(s: Store)
  {
    && (forall k :: k in s.voted ==> k.0 in s.proposals)
    && (forall id :: id in s.proposals ==>
          s.proposals[id].yesVotes + s.proposals[id].noVotes == |VotersOf(s, id)|)
  }

  ghost predicate Inv(s: Store)
  {
    StatsBalanced(s) && IdsDense(s) && TalliesMatchReceipts(s)
  }

  lemma EmptyInv()
    ensures Inv(Empty)
  {
  }

  lemma VoterOfIffReceipt(s: Store, id: nat, voter: Address)
    ensures voter in VotersOf(s, id) <==> (id, voter) in s.voted
  {
  }

  /** The active, closed and total counts agree with the stored proposals. */
  lemma {:induction false} StatsMatchStore(s: Store)
    requires Inv(s)
    ensures GetVotingStats(s).totalProposals == |s.proposals|
    ensures GetVotingStats(s).activeProposals == |ActiveIds(s)|
    ensures GetVotingStats(s).closedProposals == |ClosedIds(s)|
  {
    var ids := s.proposals.Keys;
    assert ids == ActiveIds(s) + ClosedIds(s);
    assert ActiveIds(s) !! ClosedIds(s);
    RangeSize(ids, Counter(s));
  }

  /** A set that is exactly 1..n has n elements. */
  lemma {:induction false} RangeSize(ids: set<nat>, n: nat)
    requires forall id :: id in ids <==> 1 <= id <= n
    ensures |ids| == n
    decreases n
  {
    if n > 0 {
      RangeSize(ids - {n}, n - 1);
    } else {
      assert ids == {};
    }
  }

  /**
    Under the invariant the `Not_Found` sentinel is recognisable by its zero
    identifier: a stored proposal never carries identifier 0.
   */
  lemma SentinelIffMissing(s: Store, id: nat)
    requires Inv(s)
    ensures GetProposal(s, id).proposalId == 0 <==> id !in s.proposals
    ensures id in s.proposals ==> GetProposal(s, id).proposalId == id
  {
  }

  /** Under the invariant the next identifier is not yet in use, so create never overwrites. */
  lemma CreateIsFresh(s: Store, title: string, description: string, now: nat)
    requires Inv(s)
    ensures CreateProposal(s, title, description, now).value !in s.proposals
    ensures VotersOf(s, CreateProposal(s, title, description, now).value) == {}
  {
  }

  /** Under the invariant the decrement in close never goes below zero. */
  lemma {:induction false} CloseNeverUnderflows(s: Store, id: nat)
    requires Inv(s)
    ensures CloseProposal(s, id) != Err(SubtractOverflow)
  {
    if GetProposal(s, id).isActive {
      assert id in ActiveIds(s);
    }
  }

  lemma {:induction false} CreatePreservesInv(s: Store, title: string, description: string, now: nat)
    requires Inv(s)
    ensures Inv(CreateProposal(s, title, description, now).store)
  {
    CreateIsFresh(s, title, description, now);
    CreateKeepsStatsBalanced(s, title, description, now);
    CreateKeepsIdsDense(s, title, description, now);
    CreateKeepsTallies(s, title, description, now);
  }

  lemma CreateKeepsStatsBalanced(s: Store, title: string, description: string, now: nat)
    requires StatsBalanced(s)
    requires CreateProposal(s, title, description, now).value !in s.proposals
    ensures StatsBalanced(CreateProposal(s, title, description, now).store)
  {
    var r := CreateProposal(s, title, description, now);
    assert ActiveIds(r.store) == ActiveIds(s) + {r.value};
  }

  lemma CreateKeepsIdsDense(s: Store, title: string, description: string, now: nat)
    requires IdsDense(s)
    ensures IdsDense(CreateProposal(s, title, description, now).store)
  {
  }

  lemma CreateKeepsTallies(s: Store, title: string, description: string, now: nat)
    requires TalliesMatchReceipts(s)
    requires VotersOf(s, CreateProposal(s, title, description, now).value) == {}
    ensures TalliesMatchReceipts(CreateProposal(s, title, description, now).store)
  {
  }

  lemma {:induction false} CastVotePreservesInv(s: Store, id: nat, voteYes: bool, voter: Address, authorized: bool)
    requires Inv(s)
    requires CastVote(s, id, voteYes, voter, authorized).Ok?
    ensures Inv(CastVote(s, id, voteYes, voter, authorized).store)
  {
    var s' := CastVote(s, id, voteYes, voter, authorized).store;
    assert ActiveIds(s') == ActiveIds(s);
    VoterOfIffReceipt(s, id, voter);
    assert VotersOf(s', id) == VotersOf(s, id) + {voter};
    forall other | other in s'.proposals && other != id
      ensures s'.proposals[other].yesVotes + s'.proposals[other].noVotes == |VotersOf(s', other)|
    {
      assert VotersOf(s', other) == VotersOf(s, other);
    }
  }

  lemma {:induction false} CloseProposalPreservesInv(s: Store, id: nat)
    requires Inv(s)
    requires CloseProposal(s, id).Ok?
    ensures Inv(CloseProposal(s, id).store)
  {
    var s' := CloseProposal(s, id).store;
    assert id in ActiveIds(s);
    assert ActiveIds(s') == ActiveIds(s) - {id};
    forall other | other in s'.proposals
      ensures s'.proposals[other].yesVotes + s'.proposals[other].noVotes == |VotersOf(s', other)|
    {
      assert VotersOf(s', other) == VotersOf(s, other);
    }
  }
}
