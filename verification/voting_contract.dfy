/**
  The three state-changing entry points of the voting contract, each a pure
  transition from the store before the transaction to either the store to
  commit with the value returned, or the reason the transaction aborts. An
  aborted transaction commits nothing, so `Err` carries no store.
 */
module VotingContract {
  import opened VotingState

  /**
    `create_proposal`: hands out the next identifier, stores a fresh active
    proposal under it stamped with the ledger time `now`, and counts it in
    the total and active statistics. It never fails.
   */
  function CreateProposal(s: Store, title: string, description: string, now: nat): (r: Result<nat>)
    ensures r.Ok?
    ensures r.value == Counter(s) + 1 && r.value >= 1
    ensures Counter(r.store) == r.value
    ensures GetProposal(r.store, r.value) == Proposal(r.value, title, description, 0, 0, now, true)
    ensures forall id :: id != r.value ==> GetProposal(r.store, id) == GetProposal(s, id)
    ensures r.store.proposals.Keys == s.proposals.Keys + {r.value}
    ensures GetVotingStats(r.store).totalProposals == GetVotingStats(s).totalProposals + 1
    ensures GetVotingStats(r.store).activeProposals == GetVotingStats(s).activeProposals + 1
    ensures GetVotingStats(r.store).closedProposals == GetVotingStats(s).closedProposals
    ensures r.store.voted == s.voted
  {
    var id := Counter(s) + 1;
    var stats := GetVotingStats(s);
    var proposal := Proposal(id, title, description, 0, 0, now, true);
    var stats' := stats.(totalProposals := stats.totalProposals + 1,
                         activeProposals := stats.activeProposals + 1);
    Ok(Store(Some(id), Some(stats'), s.proposals[id := proposal], s.voted), id)
  }

  /**
    `cast_vote`: `authorized` is the host's verdict on the voter's signature.
    The checks run in the source's order: authorisation, then the receipt,
    then whether the (possibly sentinel) proposal is active.
   */
  function CastVote(s: Store, id: nat, voteYes: bool, voter: Address, authorized: bool): (r: Result<()>)
    ensures r == Err(Unauthorized) <==> !authorized
    ensures r == Err(AlreadyVoted) <==> authorized && HasVoted(s, id, voter)
    ensures r == Err(ProposalClosed) <==>
      authorized && !HasVoted(s, id, voter) && !GetProposal(s, id).isActive
    ensures r.Ok? <==> authorized && !HasVoted(s, id, voter) && GetProposal(s, id).isActive
    ensures r.Ok? ==>
      var before := GetProposal(s, id);
      var after := GetProposal(r.store, id);
      && id in s.proposals
      && after.yesVotes == before.yesVotes + (if voteYes then 1 else 0)
      && after.noVotes == before.noVotes + (if voteYes then 0 else 1)
      && after.(yesVotes := before.yesVotes, noVotes := before.noVotes) == before
      && (forall other :: other != id ==> GetProposal(r.store, other) == GetProposal(s, other))
      && r.store.proposals.Keys == s.proposals.Keys
      && r.store.voted == s.voted + {(id, voter)}
      && r.store.counter == s.counter
      && r.store.stats == s.stats
  {
    if !authorized then Err(Unauthorized)
    else if HasVoted(s, id, voter) then Err(AlreadyVoted)
    else
      var proposal := GetProposal(s, id);
      if !proposal.isActive then Err(ProposalClosed)
      else
        var proposal' :=
          if voteYes then proposal.(yesVotes := proposal.yesVotes + 1)
          else proposal.(noVotes := proposal.noVotes + 1);
        Ok(s.(voted := s.voted + {(id, voter)}, proposals := s.proposals[id := proposal']), ())
  }

  /**
    `close_proposal`: deactivates an active proposal and moves one count from
    active to closed. An inactive or missing proposal (the sentinel is
    inactive) aborts with `AlreadyClosed`. The decrement of the active count
    is checked u64 arithmetic and aborts when it would go below zero.
   */
  function CloseProposal(s: Store, id: nat): (r: Result<()>)
    ensures r == Err(AlreadyClosed) <==> !GetProposal(s, id).isActive
    ensures r == Err(SubtractOverflow) <==>
      GetProposal(s, id).isActive && GetVotingStats(s).activeProposals == 0
    ensures r.Ok? <==> GetProposal(s, id).isActive && GetVotingStats(s).activeProposals > 0
    ensures r.Ok? ==>
      && id in s.proposals
      && GetProposal(r.store, id) == GetProposal(s, id).(isActive := false)
      && (forall other :: other != id ==> GetProposal(r.store, other) == GetProposal(s, other))
      && r.store.proposals.Keys == s.proposals.Keys
      && GetVotingStats(r.store).activeProposals + 1 == GetVotingStats(s).activeProposals
      && GetVotingStats(r.store).closedProposals == GetVotingStats(s).closedProposals + 1
      && GetVotingStats(r.store).totalProposals == GetVotingStats(s).totalProposals
      && r.store.voted == s.voted
      && r.store.counter == s.counter
  {
    var proposal := GetProposal(s, id);
    if !proposal.isActive then Err(AlreadyClosed)
    else
      var stats := GetVotingStats(s);
      if stats.activeProposals == 0 then Err(SubtractOverflow)
      else
        var stats' := stats.(activeProposals := stats.activeProposals - 1,
                             closedProposals := stats.closedProposals + 1);
        Ok(s.(proposals := s.proposals[id := proposal.(isActive := false)], stats := Some(stats')), ())
  }
}
