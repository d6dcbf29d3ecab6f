/**
 What the governor contract does with delivered results: it classifies a proposal from the stored
 tallies and pays each account at most once against the stored Merkle root. A root is modelled by
 a list it commits to, with the empty list for the unset root; a proof by the list of the tree it was
 made from and the leaf it is for (see `MerkleTree`).
 */
module Governor {
  import opened Common
  import opened Tally
  import opened TallyTheorems

  datatype Status =
    Pending | Active | Canceled | Defeated | Succeeded | Executed | ResolutionToRequest | ResolutionRequested

  datatype Proposal = Proposal(
    voteStart: nat, voteEnd: nat, executed: bool, canceled: bool,
    forVotes: nat, againstVotes: nat, abstainVotes: nat,
    bridgeId: nat, root: seq<Entry>, supply: nat)

  /** An entry of the contract's mapping that was never written. */
  const UNKNOWN := Proposal(0, 0, false, false, 0, 0, 0, 0, [], 0)

  /** The proposal id that the mapping of job numbers holds where it was never written. */
  const ZERO_ID := ""

  /** The part of the supply that the votes for a proposal must reach. */
  function Share(p: Proposal, quorum: nat): nat { quorum * p.supply / ONE_ETHER }

  function Verdict(p: Proposal, quorum: nat): Status {
    if p.forVotes >= Share(p, quorum) && p.forVotes > p.againstVotes then Succeeded else Defeated
  }

  /** The state of a proposal at a time; `None` where the contract reverts. */
  function State(p: Proposal, quorum: nat, now: nat): Option<Status> {
    if p.executed then Some(Executed)
    else if p.canceled then Some(Canceled)
    else if p.voteStart == 0 then None
    else if p.voteStart >= now then Some(Pending)
    else if p.voteEnd >= now then Some(Active)
    else if p.bridgeId == 0 then Some(ResolutionToRequest)
    else if p.root == [] then Some(ResolutionRequested)
    else Some(Verdict(p, quorum))
  }

  // ---- The states, in the proposal's fields ----

  /** A proposal that was made, and neither executed nor canceled. */
  predicate IsLive(p: Proposal) { !p.executed && !p.canceled && p.voteStart > 0 }

  /** The vote on it has begun and is over. */
  predicate IsOver(p: Proposal, now: nat) { IsLive(p) && p.voteStart < now && p.voteEnd < now }

  /** One more vote "for" would exceed the quorum's part of the supply, and the votes "for" are more. */
  predicate HasWon(p: Proposal, quorum: nat) {
    p.forVotes > p.againstVotes && (p.forVotes + 1) * 1_000_000_000_000_000_000 > quorum * p.supply
  }

  lemma StateIs(p: Proposal, quorum: nat, now: nat)
    ensures State(p, quorum, now) == None <==> !p.executed && !p.canceled && p.voteStart == 0
    ensures State(p, quorum, now) == Some(Executed) <==> p.executed
    ensures State(p, quorum, now) == Some(Canceled) <==> !p.executed && p.canceled
    ensures State(p, quorum, now) == Some(Pending) <==> IsLive(p) && now <= p.voteStart
    ensures State(p, quorum, now) == Some(Active) <==> IsLive(p) && p.voteStart < now <= p.voteEnd
    ensures State(p, quorum, now) == Some(ResolutionToRequest) <==> IsOver(p, now) && p.bridgeId == 0
    ensures State(p, quorum, now) == Some(ResolutionRequested) <==> IsOver(p, now) && p.bridgeId > 0 && p.root == []
    ensures State(p, quorum, now) == Some(Succeeded) <==>
      IsOver(p, now) && p.bridgeId > 0 && p.root != [] && HasWon(p, quorum)
    ensures State(p, quorum, now) == Some(Defeated) <==>
      IsOver(p, now) && p.bridgeId > 0 && p.root != [] && !HasWon(p, quorum)
  {
    FloorBelow(p.forVotes, quorum * p.supply);
  }

  /** The proposal once the oracle's callback has stored a delivered result. */
  function Delivered(p: Proposal, r: Report): Proposal {
    p.(forVotes := r.forVotes, againstVotes := r.againstVotes, abstainVotes := r.abstainVotes, root := r.toReward)
  }

  // ---- What can happen to one proposal ----

  /** A proposal with what its state depends on; `jobs` are the jobs whose results go to it. */
  datatype World = World(p: Proposal, quorum: nat, jobs: set<nat>, now: nat) {
    function Status(): Option<Status> { State(p, quorum, now) }
  }

  datatype Step =
    | Wait(later: nat)
    | Request(job: nat)
    | Fulfil(job: nat, r: Report)
    | Cancel(job: nat)
    | Execute(callsSucceed: bool)
    | SetQuorum(quorum: nat)

  /** A transaction that reverts changes nothing. */
  function Next(w: World, step: Step): World {
    match step
    case Wait(later) => if later >= w.now then w.(now := later) else w
    case Request(job) =>
      if w.Status() == Some(ResolutionToRequest) && job > 0
      then w.(p := w.p.(bridgeId := job), jobs := w.jobs + {job}) else w
    case Fulfil(job, r) => if job in w.jobs then w.(p := Delivered(w.p, r)) else w
    case Cancel(job) => if job in w.jobs then w.(p := w.p.(bridgeId := 0)) else w
    case Execute(callsSucceed) =>
      if w.Status() == Some(Succeeded) && callsSucceed then w.(p := w.p.(executed := true)) else w
    case SetQuorum(quorum) => w.(quorum := quorum)
  }

  // ---- What can happen to its rewards ----

  /** A claim transaction: who sends it, the claimed amount, and the proof, given by the list of the tree
      it was made from and the leaf it is for. */
  datatype Attempt = Attempt(sender: Address, amount: nat, list: seq<Entry>, leaf: nat)

  /** Per proposal: who has claimed, and the `ClaimedReward` events, each of which minted its amount. */
  datatype Ledger = Ledger(claimed: set<Address>, events: seq<Entry>)

  const NOTHING_PAID := Ledger({}, [])

  /** Both lists have the same tree, because a tree sorts its leaves. */
  predicate SameTree(a: seq<Entry>, b: seq<Entry>) {
    multiset(a) == multiset(b)
  }

  /** The proof leads from the claimed entry to the root. */
  predicate ProofHolds(root: seq<Entry>, a: Attempt) {
    SameTree(a.list, root) && a.leaf < |a.list| && a.list[a.leaf] == Entry(a.sender, a.amount)
  }

  function AfterClaim(root: seq<Entry>, l: Ledger, a: Attempt): Ledger {
    if ProofHolds(root, a) && a.sender !in l.claimed
    then Ledger(l.claimed + {a.sender}, l.events + [Entry(a.sender, a.amount)])
    else l
  }

  // ---- The contract ----

  class GovernorContract {
    var quorumPercentage: nat
    var proposals: map<string, Proposal>
    var jobIdToProposal: map<nat, string>
    var ledgers: map<string, Ledger>

    constructor (quorum: nat)
      ensures quorumPercentage == quorum && proposals == map[] && jobIdToProposal == map[] && ledgers == map[]
    {
      quorumPercentage, proposals, jobIdToProposal, ledgers := quorum, map[], map[], map[];
    }

    function ProposalOf(id: string): Proposal
      reads this
    {
      if id in proposals then proposals[id] else UNKNOWN
    }

    function Target(job: nat): string
      reads this
    {
      if job in jobIdToProposal then jobIdToProposal[job] else ZERO_ID
    }

    function LedgerOf(id: string): Ledger
      reads this
    {
      if id in ledgers then ledgers[id] else NOTHING_PAID
    }

    function WorldOf(id: string, now: nat): World
      reads this
    {
      World(ProposalOf(id), quorumPercentage, (set j | j in jobIdToProposal && jobIdToProposal[j] == id), now)
    }

    /** Requests a resolution, with the job number the bridge gives; reverts unless the vote is over, none
        is under way and the value sent covers the bridge's fee. A number given before now belongs to this proposal only. */
    method RequestVoteResolution(id: string, now: nat, value: nat, fee: nat, job: nat) returns (ok: bool)
      modifies this`proposals, this`jobIdToProposal
      ensures ok == (State(old(ProposalOf(id)), quorumPercentage, now) == Some(ResolutionToRequest) && value >= fee && job > 0)
      ensures ok == (IsOver(old(ProposalOf(id)), now) && old(ProposalOf(id)).bridgeId == 0 && value >= fee && job > 0)
      ensures ProposalOf(id) == if ok then old(ProposalOf(id)).(bridgeId := job) else old(ProposalOf(id))
      ensures WorldOf(id, now) == if value >= fee then Next(old(WorldOf(id, now)), Request(job)) else old(WorldOf(id, now))
      ensures forall other :: other != id ==> ProposalOf(other) == old(ProposalOf(other))
      ensures forall j :: Target(j) == if ok && j == job then id else old(Target(j))
    {
      StateIs(ProposalOf(id), quorumPercentage, now);
      if State(ProposalOf(id), quorumPercentage, now) != Some(ResolutionToRequest) || value < fee || job == 0 {
        return false;
      }
      proposals := proposals[id := ProposalOf(id).(bridgeId := job)];
      jobIdToProposal := jobIdToProposal[job := id];
      ok := true;
    }

    /** The bridge's callback: stores tallies and root of the proposal the job was for, at any time and
        any number of times; a job number it does not know writes to the zero id. */
    method LilypadFulfilled(job: nat, r: Report)
      modifies this`proposals
      ensures proposals == old(proposals)[Target(job) := Delivered(old(ProposalOf(Target(job))), r)]
      ensures ProposalOf(Target(job)) ==
        var p := old(ProposalOf(Target(job)));
        Proposal(p.voteStart, p.voteEnd, p.executed, p.canceled, r.forVotes, r.againstVotes, r.abstainVotes,
                 p.bridgeId, r.toReward, p.supply)
      ensures forall id, now :: id != ZERO_ID ==> WorldOf(id, now) == Next(old(WorldOf(id, now)), Fulfil(job, r))
    {
      var p := ProposalOf(Target(job));
      p := p.(root := r.toReward);
      p := p.(forVotes := r.forVotes);
      p := p.(againstVotes := r.againstVotes);
      p := p.(abstainVotes := r.abstainVotes);
      proposals := proposals[Target(job) := p];
    }

    /** The bridge's report of a failed job: the proposal can be resolved anew. */
    method LilypadCancelled(job: nat)
      modifies this`proposals
      ensures proposals == old(proposals)[Target(job) := old(ProposalOf(Target(job))).(bridgeId := 0)]
      ensures forall id, now :: id != ZERO_ID ==> WorldOf(id, now) == Next(old(WorldOf(id, now)), Cancel(job))
    {
      proposals := proposals[Target(job) := ProposalOf(Target(job)).(bridgeId := 0)];
    }

    /** Executes a proposal that has succeeded; reverts otherwise, and when one of its calls fails. */
    method ExecuteProposal(id: string, now: nat, callsSucceed: bool) returns (ok: bool)
      modifies this`proposals
      ensures ok == (State(old(ProposalOf(id)), quorumPercentage, now) == Some(Succeeded) && callsSucceed)
      ensures ok == (
        var p := old(ProposalOf(id));
        IsOver(p, now) && p.bridgeId > 0 && p.root != [] && HasWon(p, quorumPercentage) && callsSucceed)
      ensures ProposalOf(id) == if ok then old(ProposalOf(id)).(executed := true) else old(ProposalOf(id))
      ensures WorldOf(id, now) == Next(old(WorldOf(id, now)), Execute(callsSucceed))
      ensures forall other :: other != id ==> ProposalOf(other) == old(ProposalOf(other))
    {
      StateIs(ProposalOf(id), quorumPercentage, now);
      if State(ProposalOf(id), quorumPercentage, now) != Some(Succeeded) || !callsSucceed {
        return false;
      }
      proposals := proposals[id := ProposalOf(id).(executed := true)];
      ok := true;
    }

    method SetQuorumPercentage(quorum: nat)
      modifies this`quorumPercentage
      ensures quorumPercentage == quorum
      ensures forall id, now :: WorldOf(id, now) == Next(old(WorldOf(id, now)), SetQuorum(quorum))
    {
      quorumPercentage := quorum;
    }

    /** Claims a reward; reverts (`ok` is false, nothing changes) on a bad proof or a second claim. */
    method ClaimReward(id: string, a: Attempt) returns (ok: bool)
      modifies this`ledgers
      ensures ok == (ProofHolds(ProposalOf(id).root, a) && a.sender !in old(LedgerOf(id)).claimed)
      ensures LedgerOf(id) == AfterClaim(ProposalOf(id).root, old(LedgerOf(id)), a)
      ensures LedgerOf(id) ==
        if ok then Ledger(old(LedgerOf(id)).claimed + {a.sender}, old(LedgerOf(id)).events + [Entry(a.sender, a.amount)])
        else old(LedgerOf(id))
      ensures !ok ==> ledgers == old(ledgers)
      ensures forall other :: other != id ==> LedgerOf(other) == old(LedgerOf(other))
    {
      if !ProofHolds(ProposalOf(id).root, a) {
        return false;
      }
      var l := LedgerOf(id);
      if a.sender in l.claimed {
        return false;
      }
      ledgers := ledgers[id := Ledger(l.claimed + {a.sender}, l.events + [Entry(a.sender, a.amount)])];
      ok := true;
    }
  }
}
