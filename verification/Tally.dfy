/**
 What the vote-resolution job computes from the votes it accepted: tallies of snapshot balances,
 the decision, the reward list and the per-account map that is published with the result.
 */
module Tally {
  import opened Common

  const ONE_ETHER: nat := 1_000_000_000_000_000_000
  const ADDRESS_ZERO: Address := "0x0000000000000000000000000000000000000000"
  const FOR := "for"
  const AGAINST := "against"

  /** The `vote` field of a parsed message. `Unprintable` is an object with an entry `toString`, whose
      conversion to text throws. `Other` is any further value that is neither a string nor an array;
      none of those equals one of the two sides under either comparison. */
  datatype Json = Str(s: string) | Arr(elems: seq<Json>) | Unprintable | Other

  /** The conversion to text, and so the `==` of the reward loop, throws; an array converts all its
      elements. */
  predicate TextThrows(v: Json) {
    match v
    case Arr(elems) => exists k :: 0 <= k < |elems| && TextThrows(elems[k])
    case Unprintable => true
    case _ => false
  }

  /** The `==` of the reward loop, where it does not throw. An array is compared by its text, so it
      equals a side when it holds a single element that does; the text of a longer array contains a
      comma. */
  predicate LooselyEquals(v: Json, side: string) {
    match v
    case Str(s) => s == side
    case Arr(elems) => |elems| == 1 && LooselyEquals(elems[0], side)
    case _ => false
  }

  datatype Counted = Counted(account: Address, choice: Json)

  function RewardAmount(balance: nat, apeBalance: nat, emission: nat): nat {
    (balance + apeBalance) * emission / ONE_ETHER
  }

  /** Balances at the snapshot, balances of the second token, and the governor's two parameters. */
  datatype Chain = Chain(balances: map<Address, nat>, ape: map<Address, nat>, quorum: nat, emission: nat) {
    function Balance(a: Address): nat { if a in balances then balances[a] else 0 }
    function Ape(a: Address): nat { if a in ape then ape[a] else 0 }
    function Reward(a: Address): nat { RewardAmount(Balance(a), Ape(a), emission) }
    /** A snapshot's total supply is the sum of its balances. */
    ghost function Supply(): nat { Total(balances) }
  }

  ghost function Total(m: map<Address, nat>): nat {
    if m.Keys == {} then 0
    else
      var a :| a in m.Keys;
      m[a] + Total(m - {a})
  }

  // ---- Tallies and decision ----

  function Weight(chain: Chain, c: Counted, side: string): nat {
    if c.choice == Str(side) then chain.Balance(c.account) else 0
  }

  function VotesFor(chain: Chain, cs: seq<Counted>, side: string): nat {
    if cs == [] then 0
    else
      var n := |cs| - 1;
      VotesFor(chain, cs[..n], side) + Weight(chain, cs[n], side)
  }

  datatype Decision = Decision(forVotes: nat, againstVotes: nat, abstainVotes: int, majority: string, consensus: bool) {
    function MajorityValue(): nat { if majority == FOR then forVotes else againstVotes }
  }

  function DecideFrom(forVotes: nat, againstVotes: nat, supply: nat, quorum: nat): Decision {
    var majority := if forVotes > againstVotes then FOR else AGAINST;
    var majorityValue := if majority == FOR then forVotes else againstVotes;
    Decision(forVotes, againstVotes, supply - (forVotes + againstVotes), majority,
             forVotes != againstVotes && majorityValue >= supply * quorum / ONE_ETHER)
  }

  ghost function Decide(chain: Chain, cs: seq<Counted>): Decision {
    DecideFrom(VotesFor(chain, cs, FOR), VotesFor(chain, cs, AGAINST), chain.Supply(), chain.quorum)
  }

  // ---- Rewards ----

  datatype Entry = Entry(account: Address, amount: nat)

  function RewardOf(chain: Chain, c: Counted, majority: string): seq<Entry> {
    if LooselyEquals(c.choice, majority) then [Entry(c.account, chain.Reward(c.account))] else []
  }

  function Rewards(chain: Chain, cs: seq<Counted>, majority: string): seq<Entry> {
    if cs == [] then []
    else
      var n := |cs| - 1;
      Rewards(chain, cs[..n], majority) + RewardOf(chain, cs[n], majority)
  }

  function RewardList(chain: Chain, cs: seq<Counted>, d: Decision): seq<Entry> {
    if d.consensus then Rewards(chain, cs, d.majority) else [Entry(ADDRESS_ZERO, 0)]
  }

  ghost function ToReward(chain: Chain, cs: seq<Counted>): seq<Entry> {
    RewardList(chain, cs, Decide(chain, cs))
  }

  function Paid(entries: seq<Entry>): nat {
    if entries == [] then 0
    else Paid(entries[..|entries| - 1]) + entries[|entries| - 1].amount
  }

  /** What the published map holds for an account: the amount and the tree leaf its proof is for. */
  datatype Claim = Claim(amount: nat, leaf: nat)

  /** The map as it is filled: a later entry of the same account overwrites an earlier one. */
  function ProofData(entries: seq<Entry>): map<Address, Claim> {
    if entries == [] then map[]
    else
      var n := |entries| - 1;
      ProofData(entries[..n])[entries[n].account := Claim(entries[n].amount, n)]
  }

  // ---- The whole job, after the accepted votes are known ----

  datatype Report = Report(forVotes: nat, againstVotes: nat, abstainVotes: nat,
                           toReward: seq<Entry>, proofData: map<Address, Claim>)

  datatype JobError =
    | NoVotes           // the document holds no list to iterate over
    | Unverifiable      // recovering the signer threw, or there was no message to recover it from
    | NoAnswer          // a query of the chain failed
    | Unparsable        // a signed message was not JSON with fields
    | Incomparable      // comparing a vote with the majority threw
    | EmptyTree         // the Merkle builder refuses an empty list
    | NegativeAbstain   // the encoder refuses a negative unsigned integer

  predicate AllComparable(cs: seq<Counted>) {
    forall c :: c in cs ==> !TextThrows(c.choice)
  }

  ghost function Outcome(chain: Chain, cs: seq<Counted>): Result<Report, JobError> {
    var d := Decide(chain, cs);
    var toReward := ToReward(chain, cs);
    if d.consensus && !AllComparable(cs) then Err(Incomparable)
    else if toReward == [] then Err(EmptyTree)
    else if d.abstainVotes < 0 then Err(NegativeAbstain)
    else Ok(Report(d.forVotes, d.againstVotes, d.abstainVotes, toReward, ProofData(toReward)))
  }

  predicate DistinctVoters(cs: seq<Counted>) {
    forall i, j :: 0 <= i < j < |cs| ==> cs[i].account != cs[j].account
  }
}
