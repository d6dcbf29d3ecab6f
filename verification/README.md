# DefiKicks: votes, rewards, proposals, event queries and the data feed

A Dafny model of the logic around the DefiKicks contracts, with proofs of what it keeps.

- `VoteCollection.dfy`: voting calls that read a shared list, check it, append and overwrite it, in any interleaving.
- `Tally.dfy`, `TallyTheorems.dfy`, `TallyJob.dfy`: the vote-resolution job, from encrypted votes to the published result.
- `Governor.dfy`, `GovernorTheorems.dfy`: what the governor contract concludes from delivered results, and the claims it pays.
- `MerkleTree.dfy`: which proofs the contract accepts, down to hashes.
- `RewardLookup.dfy`, `RewardTheorems.dfy`: the rewards the page offers.
- `BlockRanges.dfy`, `EventQuery.dfy`: the paginated, chunked and retried event query.
- `ProposalStore.dfy`, `ProposalRefresh.dfy`: the shared proposal list and its sliding-window refresh.
- `RefreshOrigins.dfy`: the refreshes a stored list was made by, in any interleaving.
- `JobRouting.dfy`: where a job's result goes, given the job number it read in the stored list.
- `DataFeed.dfy`: the retried append-only feed of adapter results.
- `Encodings.dfy`, `Jose.dfy`: signatures as bytes and text (section 3.4 of RFC 7518, section 3.2 of RFC 8812, section 2 of RFC 7515, section 5 of RFC 4648).
- `Common.dfy`: shared datatypes and facts about sequences.

Code that updates variables, documents or arrays step by step is a method or class, proved against a
specification function; the properties are lemmas about those functions.

Assumptions. A snapshot's supply is the sum of its balances. Decryption, signer recovery, message parsing and
every chain answer are oracles that may fail on any input. A document update that throws changed nothing.
Hashes do not collide. The tree library (`@openzeppelin/merkle-tree`, `bacalhau-container/package.json:6`, not
part of the repository) orders hashed leaves, and two hashes it joins, by the hashes alone, and stores a complete
binary tree; what follows for proofs is proved in `MerkleTree.dfy`. All answers of the chain to one refresh
come at one time, except that a job number may be an earlier one. Event logs are sorted by block and blocks do not
change once seen. Encrypted vote records are pairwise different, because encryption is randomised.

Where code and text disagree the model follows the code:

- The tallies count snapshot balances only; the second token enters the rewards, not the votes (the pages label the tallies "KICK+APE").
- The number of ranges is not the span divided by the look-back, rounded up, as the comment at `web/utils/events.ts:12-14` says: flooring the start can cost one more (`FlooringCost`).
- The feed's `litNodeClient` is not defined where it is used (`lit-ceramic-stream/index.js:360`), so every try fails as written; the model has `execute`, an oracle that may succeed or fail, in its place.
- The inner retry of the feed passes no limit, so it never retries (`WithRetry` with an absent limit).
- The tally compares a vote with `===`, the reward loop with `==`: a vote sent as a one-element array is paid without being counted (`ArrayVoteIsPaidUncounted`).

What one would like to hold, but does not, is stated with its exact condition and a run where it fails:

- Every completed vote is kept: only without overlapping calls (`NoVoteLostIffSerial`, `RaceLosesVote`).
- Every election is resolved: not while nobody has voted, because the document then holds no list (`AnyElectionResolves`, `EmptyElectionFails`), and not when, on consensus, an accepted vote cannot be converted to text, such as an object with an entry `toString` (`JobDeliversIff`, `UnprintableVoteStopsJob`).
- Rewarded balances equal the majority tally: only without array votes of holders (`EmissionBound`, `ArrayVoteIsPaidUncounted`).
- A decided proposal stays decided: only without a later failed job, another result or another quorum (`StagesAdvanceIff`, `VerdictStandsIff`, `SecondResultOverturns`).
- Claims stay within the list: after several results only if the last list cuts no entry of an earlier one (`RedeliveryKeepsBoundIff`, `OverpaidAfterCut`); the exact maximum is in `MostMinted`.
- A job's result reaches its proposal: only if, when the job read the stored list, the latest refresh on the chain of saves and loads that made the list, with the creation event in its window, had found the request (`ResultReachesIff`, `ReachesIffRenewedAfterRequest`, `LateRequestLosesResult`); a save that overlaps another can undo that (`StaleSaveLosesResult`).
- Offers are what the contract pays: the page reads the first result in the look-back window and sends a proof from its tree, the contract holds the root of the last one, so all accounts are served only where both lists have the same entries (`PaidOfferIff`, `PageServesIff`, `PageServesAllIff`, `SecondResultMisleadsPage`).
- Winners are offered a reward they can claim: only while their result is the first in the look-back window and the standing list has exactly its entries (`OfferIffWon`, `OnlyResultServesWinners`, `OldWinnerIsNotOffered`).
- A claimed reward is shown as claimed: only if the claim is in the look-back window (`ClaimFlagExactIff`, `OldClaimShowsOpen`).
- Stored proposals stay stored: only if no save overwrites one that its client neither loaded nor saw created (`StoredStaysStoredIff`, `StaleSaveDropsNewId`).
- Every created proposal is stored: one created in a gap between windows stays missed (`WindowsCoverIffNoGap`, `GapLosesProposal`).

## Model

| member | source | states |
|---|---|---|
| VoteCollection.VoteTile.BeginVote | web/pages/vote.tsx:26-32 | the copy is the stored list, or nothing when the account is already in it |
| VoteCollection.VoteTile.FinishVote | web/pages/vote.tsx:50-61 | the document becomes the private copy followed by the new record |
| VoteCollection.VoteTile.CastUndisturbed | web/pages/vote.tsx:25-63 | an undisturbed call appends exactly when the account had not voted; afterwards it has, and accounts stay distinct |
| VoteCollection.OneVotePerAccount | web/pages/vote.tsx:26-61 | in every interleaving accounts stay distinct, no vote is invented, and no copy in flight contains its own voter |
| VoteCollection.NoVoteLostIffSerial | web/utils/tiles.ts:65-72 | every completed vote is still stored if and only if every overwrite was made on the list its client had read |
| VoteCollection.SerialRunAppends | web/pages/vote.tsx:26-61 | runs without overlap refine an append-only list of the completed votes, in order |
| VoteCollection.RaceLosesVote | web/pages/vote.tsx:26-61 | two clients that both read before either writes lose the first vote |
| VoteCollection.CallStores | web/pages/vote.tsx:25-63 | whatever other clients do, a call that reads and then overwrites leaves the list it read with its record at the end if its account was not in that list, and changes nothing otherwise |
| VoteCollection.CallStoresOnce | web/pages/vote.tsx:25-63 | a call that has stored or was given up never overwrites again |
| TallyTheorems.TalliesPartitionSupply | bacalhau-container/index.js:76-98 | with one vote per account the tallies sum to the supply and abstentions are the balances of all accounts that cast neither side |
| TallyTheorems.ConsensusIff | bacalhau-container/index.js:101-106 | consensus holds iff the tallies differ and one more unit of the larger would exceed the quorum share; the majority is then strictly larger |
| TallyTheorems.TreeNeverEmpty | bacalhau-container/index.js:108-139 | the Merkle builder never gets an empty list: consensus has a winner of positive balance, otherwise only the zero entry |
| TallyTheorems.DeliversIff | bacalhau-container/index.js:98-177 | after acceptance the job delivers iff, on consensus, no vote throws when compared, and counted balances are within the supply, as they are with one vote per account |
| TallyTheorems.TallyIsHoldings | bacalhau-container/index.js:76-93 | with one vote per account each tally is what the accounts that cast exactly that side held at the snapshot |
| TallyTheorems.EmissionBound | bacalhau-container/index.js:103-134 | the total paid is within winners minus one units below the exact emission; rewarded balances are the majority tally iff no holder was paid uncounted |
| TallyTheorems.ArrayVoteIsPaidUncounted | bacalhau-container/index.js:87-124 | a vote sent as a one-element array is rewarded but not counted |
| TallyTheorems.UnprintableVoteStopsJob | bacalhau-container/index.js:123-124 | one signed vote that cannot be converted to text stops a job that found consensus |
| TallyTheorems.Neutrality | bacalhau-container/index.js:80-137 | exchanging the sides in every vote exchanges the tallies and leaves abstentions, consensus and the reward list identical |
| TallyTheorems.OrderIndependence | bacalhau-container/index.js:80-137 | permuting the counted votes changes no decision and permutes the reward list |
| TallyTheorems.MajorityVoteKeepsConsensus | bacalhau-container/index.js:80-134 | one more vote for the side with consensus keeps it and appends one reward |
| TallyTheorems.StrayVoteIsIgnored | bacalhau-container/index.js:87-124 | a vote with other text changes no tally, and the rewards only if the loose comparison takes it for the majority |
| TallyTheorems.LooselyEqualsText | bacalhau-container/index.js:124 | the loose comparison holds iff the text of the vote, with arrays joined by commas at every depth, is the majority |
| TallyTheorems.TextThrowsIff | bacalhau-container/index.js:124 | the comparison throws iff at some depth of nested arrays there is an object that cannot be converted |
| TallyTheorems.BothTokensAreRewarded | bacalhau-container/index.js:109-133 | a reward counts the snapshot balance and the second token's balance |
| TallyTheorems.MapHoldsLastEntry | bacalhau-container/index.js:143-152 | each account is published with its last entry and the leaf of that entry |
| TallyTheorems.MapOverwritesNothingIff | bacalhau-container/index.js:143-152 | no entry is overwritten iff the accounts are distinct |
| TallyTheorems.PublishedRewards | bacalhau-container/index.js:108-153 | with one vote per account a non-zero account is published iff there is consensus and it voted with the majority, with the computed amount and its own leaf |
| TallyJob.KeepSigned | bacalhau-container/index.js:59-66 | fails iff some message does not decrypt or some signer is not recovered; otherwise keeps, in order, exactly the votes whose recovered signer is their account |
| TallyJob.ForgedVoteIsIgnored | bacalhau-container/index.js:59-66 | a readable vote that somebody else signed changes nothing: the job yields the same without it |
| TallyJob.CountVotes | bacalhau-container/index.js:76-93 | fails iff a signed message has no fields; otherwise yields the two tallies |
| TallyJob.BuildRewards | bacalhau-container/index.js:108-137 | the reward list of the decision; fails iff, on consensus, comparing some vote throws |
| TallyJob.BuildProofData | bacalhau-container/index.js:143-152 | the published map of the list |
| TallyJob.RunJob | bacalhau-container/index.js:48-177 | from the document's content on, the job yields the specified result or the specified failure, also when a query of the chain fails |
| TallyJob.JobDeliversIff | bacalhau-container/index.js:48-177 | with at most one vote per account the job delivers iff the document holds a list, the chain answers, all votes are readable and, on consensus, none throws when compared; each tally is then what the signers of that side held, abstentions are the rest, root list and published map are one, and exactly the winners are published with their part of the emission in both tokens |
| TallyJob.JobFailsWith | bacalhau-container/index.js:44-98 | which failure ends a job, in the order in which they are met |
| TallyJob.PublishedClaimsHold | bacalhau-container/index.js:139-173 | each published claim is one that the contract accepts against the root of the same result |
| TallyJob.ReportPays | bacalhau-container/index.js:108-139 | the root list pays the emission on what the published accounts hold, less at most one unit for each but one of them |
| TallyJob.AnyElectionResolves | bacalhau-container/index.js:46-153 | whatever the interleaving of voting calls with well-formed messages on a fresh document, the job delivers, and soundly, iff the chain answers and at least one overwrite completed |
| TallyJob.EmptyElectionFails | bacalhau-container/tiles.js:35-38 | while nobody has voted the document holds no list and the job fails |
| TallyJob.TextVotesPayTheMajority | web/pages/vote.tsx:36-44 | with votes as the page writes them the rewarded balances are the majority tally, and the total paid is bounded by it |
| Governor.GovernorContract.RequestVoteResolution | contracts/contracts/GovernorContract.sol:154-173 | records the job iff the proposal is neither executed nor canceled, its vote has begun and its deadline has passed, no job is recorded, the value covers the fee and the bridge gives a number; nothing else changes |
| Governor.GovernorContract.LilypadFulfilled | contracts/contracts/GovernorContract.sol:258-285 | stores the three tallies and the root of the job's proposal, an unknown job's at the zero id, at any time, and nothing else |
| Governor.GovernorContract.LilypadCancelled | contracts/contracts/GovernorContract.sol:287-294 | clears the job of the job's proposal and nothing else |
| Governor.GovernorContract.ExecuteProposal | contracts/contracts/GovernorContract.sol:233-255 | marks a proposal as executed iff its vote is over, its result is in and won, and its calls succeed, and nothing else |
| Governor.GovernorContract.SetQuorumPercentage | contracts/contracts/GovernorContract.sol:125-127 | every proposal is from then on judged by the new quorum |
| Governor.GovernorContract.ClaimReward | contracts/contracts/GovernorContract.sol:133-152 | pays iff the proof holds and the sender has not claimed; a revert changes nothing, other proposals are untouched |
| Governor.StateIs | contracts/contracts/GovernorContract.sol:324-386 | when a proposal is in each state, in its own fields: start, deadline, flags, job, root, tallies and quorum |
| GovernorTheorems.TimePasses | contracts/contracts/GovernorContract.sol:339-351 | time alone opens the vote after its start and closes it after its deadline |
| GovernorTheorems.ContractAgreesWithJobIff | contracts/contracts/GovernorContract.sol:324-386 | delivering the result moves a waiting proposal to succeeded exactly when the job found consensus with majority "for", else to defeated, iff a majority "for" reaches the share of the quorum the contract reads exactly when it reached that of the one the job read |
| GovernorTheorems.StagesAdvanceIff | contracts/contracts/GovernorContract.sol:154-366 | over every run of waiting, requests, results, failed jobs, execution and quorum changes the stages only go forward iff no failed job is reported for a requested or decided proposal and no result without root for a decided one |
| GovernorTheorems.VerdictStandsIff | contracts/contracts/GovernorContract.sol:154-366 | over every run a decided proposal keeps its verdict iff until execution no failed job is reported for it, no result without root or with tallies that do not give the verdict is delivered, and no quorum is set whose share does not give it |
| GovernorTheorems.SecondResultOverturns | contracts/contracts/GovernorContract.sol:258-285 | a second result can turn a succeeded proposal into a defeated one |
| GovernorTheorems.ClaimsNeverOverpay | contracts/contracts/GovernorContract.sol:133-152 | over any claims while a list stands no account is paid twice, every payment is a listed entry, the total stays within the list |
| GovernorTheorems.PaidIffClaimed | contracts/contracts/GovernorContract.sol:133-152 | while a list with one entry per account stands, an entry is paid iff a claim with its proof was sent |
| GovernorTheorems.MintedWithinEmission | contracts/contracts/GovernorContract.sol:133-152 | what all claims together mint while the job's list stands is within the emission on the winners' holdings |
| GovernorTheorems.RedeliveryPaysOnce | contracts/contracts/GovernorContract.sol:133-285 | over any run that mixes claims with repeated results no account is paid twice, and every payment was listed when it was made |
| GovernorTheorems.MostMinted | contracts/contracts/GovernorContract.sol:133-285 | over any number of results the most that claims between them can mint is the sum over accounts of the largest amount any list has for them; no schedule mints more and some schedule reaches it |
| GovernorTheorems.CeilingIsMax | contracts/contracts/GovernorContract.sol:258-285 | that amount is a maximum: no delivered entry is above it, and it is itself a delivered entry |
| GovernorTheorems.RedeliveryKeepsBoundIff | contracts/contracts/GovernorContract.sol:133-285 | after any number of results every schedule of claims stays within the last list iff that list cuts no entry of an earlier one |
| GovernorTheorems.OverpaidAfterCut | contracts/contracts/GovernorContract.sol:133-285 | if the last list cuts an entry of an earlier one, some schedule of claims mints more than the last list pays |
| MerkleTree.SameRootIff | bacalhau-container/index.js:139 | two lists have the same root iff they have the same entries, in any order |
| MerkleTree.AcceptedIff | bacalhau-container/index.js:139-151 | a proof made from the tree over one list is accepted against the root of another iff both have the same entries |
| MerkleTree.AnyProofAcceptedIff | contracts/contracts/GovernorContract.sol:138-143 | whatever hashes are sent, some proof for an entry is accepted iff the entry is listed; the modelled claims leave none out |
| RewardLookup.FindRewards | web/hooks/useProposals.ts:137-171 | fails iff some lookup does; otherwise offers exactly the listed proposals with an entry for the account in the first result of the window |
| RewardLookup.LookupFailsIff | web/hooks/useProposals.ts:137-168 | a lookup fails iff the query for results does, or the first result in the window is not readable for the account, or it has a reward and the query for claims fails |
| RewardTheorems.PaidOfferIff | web/hooks/useProposals.ts:137-154 | an offer is made that the contract pays, after any results and claims, iff the first result in the window publishes a reward of the account whose proof leads to the root delivered last, and the account has not claimed |
| RewardTheorems.PageServesIff | web/hooks/useProposals.ts:137-154 | an account is offered something exactly when the standing list has an entry for it, and then a claim the contract accepts, iff the first result in the window and the standing list both list it and have the same entries, or neither lists it |
| RewardTheorems.PageServesAllIff | web/hooks/useProposals.ts:137-154 | every account is served so iff the first result in the window and the standing list have the same entries |
| RewardTheorems.SecondResultMisleadsPage | web/hooks/useProposals.ts:145-146 | with two results in one window an account with the same entry at the same leaf in both is offered a claim the contract refuses, as is one that lost its entry, and one that gained an entry is offered nothing |
| RewardTheorems.OfferIffWon | web/hooks/useProposals.ts:137-154 | if the first result in the window is the job's, a non-zero account is offered a reward iff there was consensus and it voted with the majority, with the computed amount; the contract pays it iff, besides, it has not claimed and the standing list has exactly the entries of that result |
| RewardTheorems.OnlyResultServesWinners | web/hooks/useProposals.ts:137-154 | while no other result is in the window and its list stands, exactly the winners that have not claimed are offered a reward the contract pays, as long as the result is in the window |
| RewardTheorems.OldWinnerIsNotOffered | web/hooks/useProposals.ts:139-145 | a winner whose result has left the window is offered nothing, although the contract would pay the published claim while its list stands |
| RewardTheorems.ClaimFlagExactIff | web/hooks/useProposals.ts:155-168 | whatever results and claims the contract took, the flag of an offer tells whether the account has claimed iff every claim of the account is in the look-back window; a set flag is always right |
| RewardTheorems.RecentResultsFlagExact | web/hooks/useProposals.ts:155-168 | the flag is right while no result of the proposal is older than the window |
| RewardTheorems.OldClaimShowsOpen | web/hooks/useProposals.ts:155-168 | a claimed reward is shown as open when its claim is older than the window and a second result is in it |
| BlockRanges.GetPaginatedBlockRanges | web/utils/events.ts:49-82 | the requested range without look-back, none for an empty request, an error iff the look-back is zero or less, otherwise the aligned windows |
| BlockRanges.RangesAre | web/utils/events.ts:49-82 | the four cases on the result itself; with a look-back the ranges are the only sequence that cuts the floored request into aligned ranges of that many blocks, the last cut at the end, and each block lies in exactly one |
| BlockRanges.FiveToFortyFive | web/utils/events.ts:60-61 | the source's example: 0-19, 20-39, 40-45 |
| BlockRanges.WindowEnds | web/utils/events.ts:64-67 | windows start at the floored block and end at the last block; their number is floor(to/m) - floor(from/m) + 1 |
| BlockRanges.WindowShape | web/utils/events.ts:70-79 | each window starts at a multiple of m, is not empty, is full unless last, and adjoins the next |
| BlockRanges.WindowsPartition | web/utils/events.ts:59-79 | a block is in exactly one window if it is in the floored range and in none otherwise |
| BlockRanges.FlooringCost | web/utils/events.ts:12-14 | the count is the rounded-up span, plus one exactly when offset and remainder fill a window |
| BlockRanges.FullWindowQueriedIff | web/utils/events.ts:59-63 | a full aligned window is queried iff it lies in the floored span, so calls share all such windows |
| BlockRanges.LaterEndKeepsWindows | web/utils/events.ts:74-77 | raising the end keeps every window but possibly the last |
| BlockRanges.WindowsSplit | web/utils/events.ts:59-79 | cutting a call at a multiple of the look-back changes no window |
| EventQuery.PaginationIsExact | web/utils/events.ts:18-40 | joined and filtered answers equal one direct query, whatever the look-back: nothing lost, repeated or reordered |
| EventQuery.WithinIs | web/utils/events.ts:31-40 | a direct query answers each event of its blocks as often as it is in the log, and no other |
| EventQuery.QueryChunk | web/utils/events.ts:23-27 | a chunk fails iff one of its queries does |
| EventQuery.Attempt | web/utils/events.ts:18-40 | succeeds iff no query fails; issues each range once, in order, in ceil(count/concurrency) batches of at most concurrency |
| EventQuery.PaginatedEventQuery | web/utils/events.ts:7-47 | returns the full result of the first attempt without a failing query, or fails iff every allowed attempt has one; a fresh call makes at most four attempts, and exactly four when it fails |
| ProposalStore.ProposalTile.Refresh | web/hooks/useProposals.ts:46-178 | when the stored list cannot be read, without connection or governor, or when a call or reward lookup fails, the store is unchanged; otherwise it becomes the merge that is shown |
| ProposalRefresh.MergeIsUnion | web/hooks/useProposals.ts:70-134 | a merge stores exactly the union of stored ids and event ids, without duplicates |
| ProposalRefresh.MergeStoresRightRecords | web/hooks/useProposals.ts:75-131 | field by field: a seen proposal has the first event's texts, the decoded adapter's name and hash, the contract's tallies, state and job number and the count of votes; a retained one changes only its live figures, and not at all if the contract does not answer |
| ProposalRefresh.MergeKeepsOrder | web/hooks/useProposals.ts:70-134 | proposals with events come first, in the order of their first events, then the others in their stored order |
| ProposalRefresh.RefreshStoresRightRecords | web/hooks/useProposals.ts:66-131 | a stored record is made from the earliest creation event of its id in the look-back window, or else is the stored one, renewed |
| ProposalRefresh.MergeSucceedsIff | web/hooks/useProposals.ts:75-131 | a merge succeeds iff every first event decodes and is answered for and every known retained proposal is answered for |
| ProposalRefresh.RefreshGoesThroughIff | web/hooks/useProposals.ts:66-175 | a refresh is saved iff its merge succeeds, no reward lookup of a stored or new proposal fails, and its remaining calls answer |
| ProposalRefresh.InterleavedRefreshesStaySane | web/hooks/useProposals.ts:47-175 | in every interleaving the lists have no duplicate id, keep the initial ids and hold only stored or created ids |
| ProposalRefresh.StoredStaysStoredIff | web/hooks/useProposals.ts:47-175 | over every interleaving an id once stored stays stored iff no save drops one, that is, overwrites a stored id that its client neither had loaded nor saw created in its window |
| ProposalRefresh.UndisturbedSaveDropsNothing | web/hooks/useProposals.ts:47-175 | a save drops nothing when no other save came after its load |
| ProposalRefresh.StaleSaveDropsNewId | web/hooks/useProposals.ts:47-175 | a slow refresh that saves after a faster one drops a proposal the faster one had found |
| ProposalRefresh.InterleavedCoverage | web/hooks/useProposals.ts:66-175 | if no window runs ahead of the loaded list, every list holds all proposals up to its own mark, in every interleaving |
| ProposalRefresh.SerialStoreIsExact | web/hooks/useProposals.ts:66-175 | after any serial run the ids are exactly the initial ones and those created in the window of a refresh that went through |
| ProposalRefresh.WindowsCoverIffNoGap | web/hooks/useProposals.ts:66-68 | the windows cover the whole span iff no head is more than 1001 blocks after the previous tip |
| ProposalRefresh.SerialCoverage | web/hooks/useProposals.ts:66-175 | without gap the ids are exactly the initial ones and all created from 1000 blocks before the first head to the last tip |
| ProposalRefresh.GapLosesProposal | web/hooks/useProposals.ts:66-68 | a proposal created in a gap is never stored |
| RefreshOrigins.InterleavedStoreIsSerial | web/hooks/useProposals.ts:47-175 | after any interleaving with failures the stored list is what the refreshes on its chain, from save back to load, store one after the other; no other refresh leaves a trace |
| RefreshOrigins.InterleavedStoreIsExact | web/hooks/useProposals.ts:47-175 | after any interleaving the ids are exactly the initial ones and those created in the window of a refresh on the chain |
| RefreshOrigins.UndisturbedChainIsSaved | web/hooks/useProposals.ts:47-175 | when no save overlaps another, the chain is all saved refreshes in order |
| RefreshOrigins.StaleSaveDropsRefresh | web/hooks/useProposals.ts:47-175 | a save on a list loaded before another save takes that save's refresh off the chain |
| RefreshOrigins.RefreshStores | web/hooks/useProposals.ts:47-175 | whatever other clients do, a refresh stores what it makes of the list it loaded if it goes through, and nothing otherwise |
| RefreshOrigins.RefreshStoresOnce | web/hooks/useProposals.ts:47-175 | after its save or failure a refresh stores nothing more |
| JobRouting.RefreshedJobId | web/hooks/useProposals.ts:75-131 | a refresh that goes through stores the contract's job number of a proposal whose creation event it read, and leaves every other stored job number as it was |
| JobRouting.StoredJobIdIs | web/hooks/useProposals.ts:47-175 | after any interleaving the stored job number is the one the latest refresh on the chain found with the creation event in its window, or the initial one |
| JobRouting.ResultReachesIff | bacalhau-container/index.js:31-197 | over every interleaving of refreshes, contract steps and runs of the job, which read the number and return later, a result reaches its proposal iff at the reading the latest refresh on the list's chain with the creation event in its window had found a job number; otherwise the proposal is unchanged |
| JobRouting.ResultDecidesIff | contracts/contracts/GovernorContract.sol:258-386 | a proposal waiting for its result is decided by it in exactly that case |
| JobRouting.ResultReachesUndisturbedIff | web/hooks/useProposals.ts:47-175 | when no save overlaps another, the latest saved refresh with the creation event in its window decides |
| JobRouting.ReachesIffRenewedAfterRequest | web/hooks/useProposals.ts:66-101 | with up-to-date answers and no failed job, a result reaches a proposal without stored job number iff, on the chain of the list the job read, some refresh found the request with the creation event in its window |
| JobRouting.LateRequestLosesResult | web/hooks/useProposals.ts:66-129 | when every query after the request has its window after the creation, the result changes nothing, in every interleaving |
| JobRouting.StaleSaveLosesResult | web/hooks/useProposals.ts:47-175 | a run in which the latest refresh with the creation in its window finds and saves the job, an overlapping save restores the old number, and the result is lost |
| DataFeed.WithRetry | lit-ceramic-stream/index.js:287-307 | returns the first success or, after limit plus one calls, the last error; without a limit it calls once |
| DataFeed.ChosenIsFirstSuccess | lit-ceramic-stream/index.js:287-307 | the stored point is that of the first of six tries to succeed |
| DataFeed.Ceramic.TryAppend | lit-ceramic-stream/index.js:356-422 | a try whose steps all succeed appends one point with the executed code's response and hash and the joined signature, and leaves all else; failing at any step it changes nothing |
| DataFeed.Ceramic.AppendWithRetry | lit-ceramic-stream/index.js:355-425 | at most six tries append exactly one point, or none if all fail |
| DataFeed.Ceramic.RunRound | lit-ceramic-stream/index.js:354-426 | a round appends in order until an adapter exhausts its tries |
| DataFeed.Ceramic.Run | lit-ceramic-stream/index.js:313-430 | rounds follow each other until the wallet signature, authentication, the list of adapters or an adapter fails for good |
| DataFeed.RoundGain | lit-ceramic-stream/index.js:354-426 | each adapter before the first that exhausts its tries gains exactly one point, that one and all later ones none |
| DataFeed.FeedOnlyAppends | lit-ceramic-stream/index.js:405-419 | over every run each document keeps its history as a prefix and its other content, and gains exactly its own points in order |
| DataFeed.OnlyExecutedAreFed | lit-ceramic-stream/index.js:352 | over every run the document of an id that no stored list has with status 7 is untouched |
| DataFeed.RoundFeeds | lit-ceramic-stream/index.js:313-426 | in a round an adapter of the stored list gains exactly one point, that of its first successful try, iff the round is signed and authenticated, the adapter has status 7, and neither it nor an earlier one with status 7 exhausts its six tries |
| DataFeed.FeedGoesOnIff | lit-ceramic-stream/index.js:313-430 | the feed goes on to the next round iff the round is signed, authenticated and listed and no adapter with status 7 exhausts its tries |
| DataFeed.FeedCompletesIff | lit-ceramic-stream/index.js:313-430 | the feed has not failed iff all its rounds went on |
| Encodings.HexThere | lit-ceramic-stream/index.js:37-39 | strict decoding undoes writing base16 |
| Encodings.HexBack | lit-ceramic-stream/index.js:52-53 | every base16 text the strict decoder accepts is the one written for its bytes |
| Encodings.HexPlaces | lit-ceramic-stream/index.js:37-39 | each byte is two lower-case digits, the higher half first |
| Encodings.Base64urlInverse | lit-ceramic-stream/index.js:31-33 | encoding and strict decoding are inverse bijections between byte strings and accepted texts |
| Encodings.AlphabetsAre | lit-ceramic-stream/index.js:31-39 | the digits are those of the two alphabets, in order |
| Encodings.TextStandsFor | lit-ceramic-stream/index.js:31-33 | four digits stand for the number of three bytes, the first byte highest; shorter ends are filled with zero bits |
| Jose.ToJose | lit-ceramic-stream/index.js:50-61 | the array is filled to the specified layout, with the failures of the source in its order |
| Jose.EncodedIs | lit-ceramic-stream/index.js:50-61 | what is written: r over zeroes at 0, s over that at 32, the recovery byte at 64; too long halves and an absent recovery parameter are refused |
| Jose.EncodedIsConcat | lit-ceramic-stream/index.js:50-61 | with halves of 32 bytes it is r, then s, then the recovery byte |
| Jose.ParsesIff | lit-ceramic-stream/index.js:62-68 | with the strict decoder, reading accepts exactly the encodings of 64 or 65 bytes |
| Jose.WriteThenReadIff | lit-ceramic-stream/index.js:50-73 | a written signature reads back unchanged iff r and s are 32 bytes and the recovery parameter is a written byte or absent |
| Jose.ReadThenWrite | lit-ceramic-stream/index.js:50-73 | writing what was read reproduces every text the strict decoder accepts |

## Left out

- AnyElectionResolves: is stated for well-formed messages; JobDeliversIff gives the exact condition when some are not.
- RunJob: starts at the document's content; the choice of the proposal by name and the number of its snapshot are not modelled.
- The lookup of the proposal by name: `bacalhau-container/index.js:44` throws when no proposal has the given name. The documented run (`bacalhau-container/readme.md:31-35`) and the contract's specification of the job (`contracts/contracts/GovernorContract.sol:96`) pass a proposal id but no name, so with them the job fails before it reads a vote. Names are taken to be distinct.
- FindRewards: resolves "latest" once for all result queries and once for all claim queries.
- RequestVoteResolution: the bridge's own bookkeeping is not modelled; fee and job number are whatever the bridge gives.
- HexBack: the decoder is the strict one of section 8 of RFC 4648; the decoding library's tolerance for trailing `=` is not part of this model.
- Base64urlInverse: the text decoder is the strict one of RFC 4648; the decoding library's tolerance for padding and the plain base64 digits is not part of this model.
- ParsesIff: holds for the strict decoder only, for the same reason.
- ReadThenWrite: holds for the strict decoder only, for the same reason.
- Amounts, tallies and balances are unbounded; the encoders' refusal of values from 2^256 on is not modelled.
- Heads below 1000, for which the look-back start would be negative, and non-numeric block tags.
- A negative concurrency, with which the chunk loop does not end.
- The fields of a message other than the vote.
- The multiproofs and dumps of the Merkle tree; the internals of signature recovery, time-lock encryption, JSON and ABI encoding.
- The governor's proposing and its state Canceled, which no transaction sets; the bridge contracts and the token.
- DID encoding and the signing of documents: base58 and curve libraries carry nearly all of it.
- Network traffic, timers, notifications between browsers, rendering and deployment scripts.
- The Rust relay node, which only forwards messages.
