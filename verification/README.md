# Verified model of the Soroban `VotingContract`

This project models the `VotingContract` smart contract as a Dafny state
machine and proves properties about it. The contract is a minimal
proposal-and-voting ledger. Anyone can create a proposal. Each address can
cast one yes/no vote per proposal. Anyone can close a proposal. Aggregate
statistics can be read at any time.

The contract keeps four kinds of record in one instance store:

- the proposal counter (`P_COUNT`);
- the singleton `VotingStats` record (`V_STATS`);
- one `Proposal` per `ProposalBook::Proposal(id)`;
- one vote receipt per `VoteRecord::HasVoted(id, voter)`.

In this model they form one immutable `Store`:

- The counter and the statistics are `Option`s, because the store starts empty and every read supplies its own default (`unwrap_or(0)`, all-zero stats).
- Proposals form a `map<nat, Proposal>`.
- Receipts form a set of `(id, voter)` pairs. The contract only ever writes `true` under a receipt key, so key presence is exactly what `unwrap_or(false)` reads.

Each state-changing entry point is a pure function from the store to `Ok(newStore, value)` or
`Err(error)`. A Rust `panic!` aborts the whole transaction, so `Err` carries no
store: nothing is committed.

Modules, one file each:

- `VotingState` (`voting_state.dfy`): records, the store, and the two read-only queries with their defaults and the `Not_Found` sentinel.
- `VotingContract` (`voting_contract.dfy`): `create_proposal`, `cast_vote` and `close_proposal`. Their checks run in the source's order.
- `VotingInvariant` (`voting_invariant.dfy`): the global invariant and its preservation by each successful transaction. The invariant says:
  - active + closed == total;
  - total == counter;
  - the stored IDs are exactly 1..counter, each stored under its own ID;
  - the active count is the number of active stored proposals;
  - receipts exist only for stored proposals;
  - each proposal's yes + no tally equals the number of distinct voters holding a receipt for it.
- `VotingTrace` (`voting_trace.dfy`): histories of calls. An aborted call keeps the old store. Properties proved over whole histories:
  - the invariant holds throughout;
  - create returns consecutive IDs;
  - the store only grows;
  - a vote is accepted at most once per (proposal, voter).

`stats.active_proposals -= 1` in `close_proposal` is unsigned arithmetic.
The model assumes the crate is built with overflow checks enabled
(`overflow-checks = true`, as Soroban contract templates set it), so an
underflow would panic. The contract has no panic of its own for this case, so
the model adds the `SubtractOverflow` abort. The lemmas `CloseNeverUnderflows`
and `ReachableStatsBalanced` prove that this abort cannot happen in any
reachable store.

## Model

| member | source | states |
|---|---|---|
| VotingState.GetProposal | stellar-project/VotingSystem/contracts/hello-world/src/lib.rs:150-162 | A stored ID returns its record. An ID with nothing stored returns the sentinel: ID 0, title and description "Not_Found", zero tallies and time, inactive. Any active result must come from a stored record. |
| VotingState.GetVotingStats | stellar-project/VotingSystem/contracts/hello-world/src/lib.rs:165-171 | Returns the stored stats, or total = active = closed = 0 when none are stored. |
| VotingContract.CreateProposal | stellar-project/VotingSystem/contracts/hello-world/src/lib.rs:52-83 | Always succeeds. Returns the old counter plus 1 (an absent counter reads as 0), which is at least 1, and stores it as the new counter. Under it, stores a proposal with that ID, the given title and description, zero tallies, the supplied time, and active. Total and active go up by 1. Closed, every other proposal and all receipts are unchanged. |
| VotingContract.CastVote | stellar-project/VotingSystem/contracts/hello-world/src/lib.rs:86-123 | Unauthorized exactly when not authorised. AlreadyVoted exactly when authorised and a receipt exists, whatever vote_yes is. ProposalClosed exactly when authorised, no receipt, and the (possibly sentinel) proposal is inactive. On success: exactly one of the yes/no tallies goes up by 1 as vote_yes says, the receipt is added, and no other field, proposal, receipt, stat or counter changes. |
| VotingContract.CloseProposal | stellar-project/VotingSystem/contracts/hello-world/src/lib.rs:126-147 | AlreadyClosed exactly when the proposal is inactive or missing. On success the proposal's flag becomes false and its tallies, title and time stay as they were. Active goes down by 1, closed goes up by 1, and total, other proposals, receipts and the counter are unchanged. The decrement aborts instead of going below zero. |
| VotingInvariant.EmptyInv | stellar-project/VotingSystem/contracts/hello-world/src/lib.rs:165-171 | A fresh deployment, with nothing stored and every read defaulted, satisfies the global invariant. |
| VotingInvariant.StatsMatchStore | stellar-project/VotingSystem/contracts/hello-world/src/lib.rs:71-72 | Under the invariant, total equals the number of stored proposals, active equals the number of active ones, and closed equals the number of closed ones. |
| VotingInvariant.SentinelIffMissing | stellar-project/VotingSystem/contracts/hello-world/src/lib.rs:153-161 | Under the invariant, get_proposal returns ID 0 exactly when nothing is stored under the ID. A stored record carries its own ID, so callers can recognise a miss by ID 0. |
| VotingInvariant.CreateIsFresh | stellar-project/VotingSystem/contracts/hello-world/src/lib.rs:53-75 | Under the invariant, the ID create hands out has no stored proposal and no receipts yet, so create never overwrites a proposal. |
| VotingInvariant.CloseNeverUnderflows | stellar-project/VotingSystem/contracts/hello-world/src/lib.rs:136-138 | Under the invariant, the active-count decrement in close never goes below zero. |
| VotingInvariant.CreatePreservesInv | stellar-project/VotingSystem/contracts/hello-world/src/lib.rs:52-77 | create_proposal preserves the global invariant. |
| VotingInvariant.CastVotePreservesInv | stellar-project/VotingSystem/contracts/hello-world/src/lib.rs:86-120 | A successful cast_vote preserves the global invariant. This includes "tally == number of distinct receipt holders", so no voter is counted twice. |
| VotingInvariant.CloseProposalPreservesInv | stellar-project/VotingSystem/contracts/hello-world/src/lib.rs:126-142 | A successful close_proposal preserves the global invariant, including active + closed == total. |
| VotingTrace.Step | stellar-project/VotingSystem/contracts/hello-world/src/lib.rs:52-171 | A failing vote or close replies `Aborted` with that call's error and keeps the old store unchanged (a panic leaves no partial write). A successful vote or close, and every create, commits exactly the store its transition computed. The two queries never change the store and reply with get_proposal's record and get_voting_stats's stats. Only create returns an ID, and it is the old counter plus 1. |
| VotingTrace.StepPreservesInv | stellar-project/VotingSystem/contracts/hello-world/src/lib.rs:52-147 | Every call, successful or aborted, preserves the global invariant. |
| VotingTrace.RunPreservesInv | stellar-project/VotingSystem/contracts/hello-world/src/lib.rs:52-147 | Every sequence of calls preserves the global invariant. |
| VotingTrace.ReachableStatsBalanced | stellar-project/VotingSystem/contracts/hello-world/src/lib.rs:71-72 | After any history on a fresh deployment: active + closed == total == counter == number of proposals, active and closed match the stored flags, and close cannot underflow. |
| VotingTrace.StepCounter | stellar-project/VotingSystem/contracts/hello-world/src/lib.rs:53-54 | The counter goes up by exactly 1 on create and is unchanged by every other call, including aborted ones. |
| VotingTrace.RunIdsSequential | stellar-project/VotingSystem/contracts/hello-world/src/lib.rs:53-82 | In any history, the IDs returned by creates are counter+1, counter+2, … in call order, with no gaps or repeats. Their number equals the counter's increase. |
| VotingTrace.IdsFromFreshDeployment | stellar-project/VotingSystem/contracts/hello-world/src/lib.rs:53-82 | On a fresh deployment, the k-th create returns k. |
| VotingTrace.StepGrows | stellar-project/VotingSystem/contracts/hello-world/src/lib.rs:52-147 | Under the invariant, one call never removes a proposal or receipt and never lowers the counter or a tally. It never reopens a closed proposal, never changes a closed proposal at all, and never changes a proposal's ID, title, description or time. |
| VotingTrace.RunGrows | stellar-project/VotingSystem/contracts/hello-world/src/lib.rs:52-147 | The same growth property holds across any sequence of calls. |
| VotingTrace.StepKeepsReceipts | stellar-project/VotingSystem/contracts/hello-world/src/lib.rs:117 | No call removes a vote receipt. |
| VotingTrace.ReceiptBlocksLaterVotes | stellar-project/VotingSystem/contracts/hello-world/src/lib.rs:87-97 | Once a receipt exists, any later vote by that voter on that proposal aborts: with AlreadyVoted if authorised, otherwise Unauthorized. |
| VotingTrace.VoteAcceptedAtMostOnce | stellar-project/VotingSystem/contracts/hello-world/src/lib.rs:89-117 | In any history, if a vote by a voter on a proposal is accepted, every later vote by the same voter on the same proposal aborts: with AlreadyVoted if authorised, otherwise Unauthorized. |
| VotingTrace.CloseTwiceFails | stellar-project/VotingSystem/contracts/hello-world/src/lib.rs:127-134 | Closing the same proposal twice: the second close aborts with AlreadyClosed. |
| VotingTrace.VoteTwiceFails | stellar-project/VotingSystem/contracts/hello-world/src/lib.rs:92-97 | After an accepted vote, the same voter's next authorised vote on that proposal aborts with AlreadyVoted, whatever vote_yes is. |
| VotingTrace.MissingProposalRejected | stellar-project/VotingSystem/contracts/hello-world/src/lib.rs:100-131 | For an ID with nothing stored, an authorised vote without a receipt aborts with ProposalClosed, and a close aborts with AlreadyClosed. Because of the sentinel there is no separate "not found" error. |
| VotingTrace.VoteAfterCloseFails | stellar-project/VotingSystem/contracts/hello-world/src/lib.rs:100-105 | After a close, an authorised voter without a receipt gets ProposalClosed. |
| VotingTrace.BudgetScenario | stellar-project/VotingSystem/contracts/hello-world/src/lib.rs:52-147 | Scenario: create "Budget" returns 1 with stats (1,1,0); a yes vote gives tallies 1/0; repeating it aborts with AlreadyVoted; close gives stats (0 active, 1 closed); a second voter then gets ProposalClosed. |

## Left out

- Soroban storage plumbing (`env.storage().instance()`), `extend_ttl`, and `#[contracttype]` serialization: the store is an explicit immutable value, and retention periods have no effect on the logic.
- `log!` event emission: it is purely observational.
- `voter.require_auth()`: a host identity check, modelled as the boolean `authorized` input to `CastVote`, checked first.
- `env.ledger().timestamp()`: the host clock, passed to `CreateProposal` as the parameter `now`.
- Soroban `String` and `Address` internals: titles are `string`, and an `Address` is a value compared only for equality.
- Concurrency: the host runs one transaction at a time, which `Run` models as a sequence.
- CreateProposal: does not model u64 overflow of the counter, `total_proposals` or `active_proposals` (all are `nat`). Overflow would need 2^64 proposals.
- CastVote: does not model u64 overflow of `yes_votes` or `no_votes` (both are `nat`). Under the invariant a tally never exceeds the number of distinct voters.
- CloseProposal: does not model u64 overflow of `closed_proposals`, which the invariant bounds by the number of proposals.
- CloseProposal: the `active_proposals` decrement is modelled as a checked subtraction that aborts with `SubtractOverflow`. A build with wrapping arithmetic would store `u64::MAX` instead of aborting. `CloseNeverUnderflows` shows that neither case is reachable.
