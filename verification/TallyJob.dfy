/**
 The vote-resolution job itself: decrypt every stored vote, keep those whose recovered signer is
 the account they claim, tally, decide, build the reward list and the published map. Decryption,
 signer recovery and message parsing are oracles; each may fail on any input.
 */
module TallyJob {
  import opened Common
  import opened Tally
  import opened TallyTheorems
  import opened VoteCollection
  import Governor

  /** `parse` yields the `vote` field of a message; it fails on text that has no fields. `answers` says
      whether all queries of balances, supply and parameters are answered; one that is not ends the job. */
  datatype Oracles = Oracles(
    decrypt: string -> Option<string>,
    recover: (string, string) -> Option<Address>,
    parse: string -> Option<Json>,
    answers: bool)

  datatype Decrypted = Decrypted(vote: Vote, message: Option<string>)
  datatype SignedVote = SignedVote(account: Address, message: string)

  // ---- What the job is meant to accept ----

  /** The signer of a stored vote; recovering it fails when the vote could not be decrypted. */
  function Signer(o: Oracles, v: Vote): Option<Address> {
    match o.decrypt(v.cyphertext)
    case None => None
    case Some(m) => o.recover(m, v.signature)
  }

  predicate AllVerify(o: Oracles, votes: seq<Vote>) {
    forall v :: v in votes ==> Signer(o, v).Some?
  }

  /** The votes signed by the account they claim, in stored order. */
  function Accepted(o: Oracles, votes: seq<Vote>): seq<SignedVote>
    requires AllVerify(o, votes)
  {
    if votes == [] then []
    else
      var n := |votes| - 1;
      var v := votes[n];
      Accepted(o, votes[..n]) +
      if Signer(o, v) == Some(v.account) then [SignedVote(v.account, o.decrypt(v.cyphertext).value)] else []
  }

  predicate AllParse(o: Oracles, signed: seq<SignedVote>) {
    forall s :: s in signed ==> o.parse(s.message).Some?
  }

  function CountedOf(o: Oracles, signed: seq<SignedVote>): seq<Counted>
    requires AllParse(o, signed)
  {
    seq(|signed|, i requires 0 <= i < |signed| => Counted(signed[i].account, o.parse(signed[i].message).value))
  }

  /** The result for a document; `None` is one that holds no list. */
  ghost function JobResult(o: Oracles, chain: Chain, data: Option<seq<Vote>>): Result<Report, JobError> {
    if data.None? then Err(NoVotes)
    else if !AllVerify(o, data.value) then Err(Unverifiable)
    else if !o.answers then Err(NoAnswer)
    else if !AllParse(o, Accepted(o, data.value)) then Err(Unparsable)
    else Outcome(chain, CountedOf(o, Accepted(o, data.value)))
  }

  /** The vote decrypts to this message, which its account has signed. */
  predicate SignedBy(o: Oracles, v: Vote, m: string) {
    o.decrypt(v.cyphertext) == Some(m) && o.recover(m, v.signature) == Some(v.account)
  }

  /** The vote decrypts, and someone has signed the message. */
  predicate Readable(o: Oracles, v: Vote) {
    o.decrypt(v.cyphertext).Some? && o.recover(o.decrypt(v.cyphertext).value, v.signature).Some?
  }

  lemma SignerIs(o: Oracles, v: Vote)
    ensures Signer(o, v).Some? <==> Readable(o, v)
    ensures forall m :: o.decrypt(v.cyphertext) == Some(m) ==> Signer(o, v) == o.recover(m, v.signature)
  {
  }

  lemma AllVerifyIff(o: Oracles, votes: seq<Vote>)
    ensures AllVerify(o, votes) <==> forall v :: v in votes ==> Readable(o, v)
  {
    forall v
      ensures Signer(o, v).Some? <==> Readable(o, v)
    {
      SignerIs(o, v);
    }
  }

  lemma {:induction false} AcceptedFrom(o: Oracles, votes: seq<Vote>)
    requires AllVerify(o, votes)
    ensures forall s :: s in Accepted(o, votes) <==>
      exists v :: v in votes && v.account == s.account && SignedBy(o, v, s.message)
  {
    if votes != [] {
      var n := |votes| - 1;
      AcceptedFrom(o, votes[..n]);
      assert votes == votes[..n] + [votes[n]];
    }
  }

  lemma {:induction false} AcceptedDistinct(o: Oracles, votes: seq<Vote>)
    requires AllVerify(o, votes) && DistinctAccounts(votes)
    ensures forall i, j :: 0 <= i < j < |Accepted(o, votes)| ==>
      Accepted(o, votes)[i].account != Accepted(o, votes)[j].account
  {
    if votes != [] {
      var n := |votes| - 1;
      AcceptedDistinct(o, votes[..n]);
      AcceptedFrom(o, votes[..n]);
      var signed := Accepted(o, votes[..n]);
      forall i | 0 <= i < |signed|
        ensures signed[i].account != votes[n].account
      {
        assert signed[i] in signed;
        var v :| v in votes[..n] && v.account == signed[i].account && SignedBy(o, v, signed[i].message);
      }
    }
  }

  // ---- The job ----

  method DecryptVotes(o: Oracles, votes: seq<Vote>) returns (decrypted: seq<Decrypted>)
    ensures |decrypted| == |votes|
    ensures forall i :: 0 <= i < |votes| ==> decrypted[i] == Decrypted(votes[i], o.decrypt(votes[i].cyphertext))
  {
    decrypted := [];
    for i := 0 to |votes|
      invariant |decrypted| == i
      invariant forall j :: 0 <= j < i ==> decrypted[j] == Decrypted(votes[j], o.decrypt(votes[j].cyphertext))
    {
      decrypted := decrypted + [Decrypted(votes[i], o.decrypt(votes[i].cyphertext))];
    }
  }

  method KeepSigned(o: Oracles, decrypted: seq<Decrypted>, ghost votes: seq<Vote>) returns (signed: Option<seq<SignedVote>>)
    requires |decrypted| == |votes|
    requires forall i :: 0 <= i < |votes| ==> decrypted[i] == Decrypted(votes[i], o.decrypt(votes[i].cyphertext))
    ensures signed.Some? <==> AllVerify(o, votes)
    ensures signed.Some? ==> signed.value == Accepted(o, votes)
    ensures signed.Some? <==> forall v :: v in votes ==> Readable(o, v)
    ensures signed.Some? ==> forall s :: s in signed.value <==>
      exists v :: v in votes && v.account == s.account && SignedBy(o, v, s.message)
  {
    AllVerifyIff(o, votes);
    var kept := [];
    for i := 0 to |decrypted|
      invariant AllVerify(o, votes[..i]) && kept == Accepted(o, votes[..i])
    {
      var d := decrypted[i];
      assert votes[i] in votes && votes[..i + 1] == votes[..i] + [votes[i]] && votes[..i + 1][..i] == votes[..i];
      if d.message.None? {
        return None;
      }
      var recovered := o.recover(d.message.value, d.vote.signature);
      if recovered.None? {
        return None;
      }
      if recovered.value == d.vote.account {
        kept := kept + [SignedVote(d.vote.account, d.message.value)];
      }
    }
    assert votes[..|votes|] == votes;
    AcceptedFrom(o, votes);
    signed := Some(kept);
  }

  /** Parsing one more message. */
  lemma CountedOneMore(o: Oracles, signed: seq<SignedVote>, i: nat)
    requires i < |signed| && AllParse(o, signed[..i])
    ensures o.parse(signed[i].message).Some? <==> AllParse(o, signed[..i + 1])
    ensures AllParse(o, signed[..i + 1]) ==>
      CountedOf(o, signed[..i + 1]) ==
        CountedOf(o, signed[..i]) + [Counted(signed[i].account, o.parse(signed[i].message).value)]
  {
    assert signed[..i + 1] == signed[..i] + [signed[i]];
  }

  lemma VotesOneMore(o: Oracles, chain: Chain, signed: seq<SignedVote>, i: nat, side: string)
    requires i < |signed| && AllParse(o, signed[..i]) && o.parse(signed[i].message).Some?
    ensures AllParse(o, signed[..i + 1])
    ensures VotesFor(chain, CountedOf(o, signed[..i + 1]), side)
         == VotesFor(chain, CountedOf(o, signed[..i]), side) +
            if o.parse(signed[i].message).value == Str(side) then chain.Balance(signed[i].account) else 0
  {
    CountedOneMore(o, signed, i);
    OneMoreVote(chain, CountedOf(o, signed[..i]), Counted(signed[i].account, o.parse(signed[i].message).value), side);
  }

  method CountVotes(o: Oracles, chain: Chain, signed: seq<SignedVote>) returns (tallies: Option<(nat, nat)>)
    ensures tallies.Some? <==> AllParse(o, signed)
    ensures tallies.Some? ==>
      var cs := CountedOf(o, signed);
      tallies.value == (VotesFor(chain, cs, FOR), VotesFor(chain, cs, AGAINST))
  {
    var forVotes, againstVotes: nat := 0, 0;
    for i := 0 to |signed|
      invariant AllParse(o, signed[..i])
      invariant forVotes == VotesFor(chain, CountedOf(o, signed[..i]), FOR)
      invariant againstVotes == VotesFor(chain, CountedOf(o, signed[..i]), AGAINST)
    {
      var balance := chain.Balance(signed[i].account);
      var choice := o.parse(signed[i].message);
      if choice.None? {
        assert signed[i] in signed;
        return None;
      }
      VotesOneMore(o, chain, signed, i, FOR);
      VotesOneMore(o, chain, signed, i, AGAINST);
      if choice.value == Str(FOR) {
        forVotes := forVotes + balance;
      }
      if choice.value == Str(AGAINST) {
        againstVotes := againstVotes + balance;
      }
    }
    assert signed[..|signed|] == signed;
    tallies := Some((forVotes, againstVotes));
  }

  method BuildRewards(o: Oracles, chain: Chain, signed: seq<SignedVote>, d: Decision) returns (toReward: Option<seq<Entry>>)
    requires AllParse(o, signed)
    ensures toReward ==
      if d.consensus && !AllComparable(CountedOf(o, signed)) then None
      else Some(RewardList(chain, CountedOf(o, signed), d))
  {
    if !d.consensus {
      return Some([Entry(ADDRESS_ZERO, 0)]);
    }
    var rewards: seq<Entry> := [];
    for i := 0 to |signed|
      invariant AllParse(o, signed[..i])
      invariant AllComparable(CountedOf(o, signed[..i]))
      invariant rewards == Rewards(chain, CountedOf(o, signed[..i]), d.majority)
    {
      var balance, apeBalance := chain.Balance(signed[i].account), chain.Ape(signed[i].account);
      assert signed[i] in signed;
      var choice := o.parse(signed[i].message).value;
      RewardsOneMore(o, chain, signed, i, d.majority);
      if TextThrows(choice) {
        assert CountedOf(o, signed)[i] in CountedOf(o, signed);
        return None;
      }
      CountedOneMore(o, signed, i);
      if LooselyEquals(choice, d.majority) {
        rewards := rewards + [Entry(signed[i].account, RewardAmount(balance, apeBalance, chain.emission))];
      }
    }
    assert signed[..|signed|] == signed;
    toReward := Some(rewards);
  }

  lemma RewardsOneMore(o: Oracles, chain: Chain, signed: seq<SignedVote>, i: nat, side: string)
    requires i < |signed| && AllParse(o, signed[..i]) && o.parse(signed[i].message).Some?
    ensures AllParse(o, signed[..i + 1])
    ensures Rewards(chain, CountedOf(o, signed[..i + 1]), side)
         == Rewards(chain, CountedOf(o, signed[..i]), side) +
            if LooselyEquals(o.parse(signed[i].message).value, side)
            then [Entry(signed[i].account, chain.Reward(signed[i].account))] else []
  {
    CountedOneMore(o, signed, i);
    OneMoreVote(chain, CountedOf(o, signed[..i]), Counted(signed[i].account, o.parse(signed[i].message).value), side);
  }

  method BuildProofData(entries: seq<Entry>) returns (proofData: map<Address, Claim>)
    ensures proofData == ProofData(entries)
  {
    proofData := map[];
    for i := 0 to |entries|
      invariant proofData == ProofData(entries[..i])
    {
      proofData := proofData[entries[i].account := Claim(entries[i].amount, i)];
      assert entries[..i + 1][..i] == entries[..i];
    }
    assert entries[..|entries|] == entries;
  }

  method RunJob(o: Oracles, chain: Chain, supply: nat, data: Option<seq<Vote>>) returns (r: Result<Report, JobError>)
    requires supply == chain.Supply()
    ensures r == JobResult(o, chain, data)
  {
    if data.None? {
      return Err(NoVotes);
    }
    var decrypted := DecryptVotes(o, data.value);
    var signed := KeepSigned(o, decrypted, data.value);
    if signed.None? {
      return Err(Unverifiable);
    }
    if !o.answers {
      return Err(NoAnswer);
    }
    var tallies := CountVotes(o, chain, signed.value);
    if tallies.None? {
      return Err(Unparsable);
    }
    var d := DecideFrom(tallies.value.0, tallies.value.1, supply, chain.quorum);
    var toReward := BuildRewards(o, chain, signed.value, d);
    if toReward.None? {
      return Err(Incomparable);
    }
    if |toReward.value| == 0 {
      return Err(EmptyTree);
    }
    var proofData := BuildProofData(toReward.value);
    if d.abstainVotes < 0 {
      return Err(NegativeAbstain);
    }
    r := Ok(Report(d.forVotes, d.againstVotes, d.abstainVotes, toReward.value, proofData));
  }

  // ---- From the tile to the result ----

  /** The account signed this vote, with a `vote` field that satisfies the condition. */
  predicate SignedWith(o: Oracles, v: Vote, condition: Json -> bool) {
    o.decrypt(v.cyphertext).Some? &&
    var m := o.decrypt(v.cyphertext).value;
    o.recover(m, v.signature) == Some(v.account) && o.parse(m).Some? && condition(o.parse(m).value)
  }

  /** The accounts with a stored vote that they signed for exactly this side. */
  function Voters(o: Oracles, votes: seq<Vote>, side: string): set<Address> {
    set v | v in votes && SignedWith(o, v, j => j == Str(side)) :: v.account
  }

  // A delivered report, in its own figures.
  function MajorityOf(r: Report): string { if r.forVotes > r.againstVotes then "for" else "against" }

  function LargerOf(r: Report): nat { if r.forVotes > r.againstVotes then r.forVotes else r.againstVotes }

  /** The tallies differ, and one more unit of the larger would exceed the quorum's part of the supply. */
  ghost predicate Reached(chain: Chain, r: Report) {
    r.forVotes != r.againstVotes && (LargerOf(r) + 1) * 1_000_000_000_000_000_000 > Total(chain.balances) * chain.quorum
  }

  /** The account signed a vote that matches the side loosely. */
  predicate Won(o: Oracles, votes: seq<Vote>, a: Address, side: string) {
    exists v :: v in votes && v.account == a && SignedWith(o, v, j => LooselyEquals(j, side))
  }

  /** The emission on what an account holds of both tokens, floored. */
  function EmissionTo(chain: Chain, a: Address): nat {
    ((if a in chain.balances then chain.balances[a] else 0) + (if a in chain.ape then chain.ape[a] else 0))
      * chain.emission / 1_000_000_000_000_000_000
  }

  /** The published map and the list that the root commits to are one: a published claim is for the leaf
      that holds its entry, and every leaf is published. */
  predicate MapMatchesList(r: Report) {
    && r.toReward != [] && |r.proofData| == |r.toReward|
    && (forall a :: a in r.proofData ==>
          r.proofData[a].leaf < |r.toReward| && r.toReward[r.proofData[a].leaf] == Entry(a, r.proofData[a].amount))
    && (forall i :: 0 <= i < |r.toReward| ==> r.toReward[i].account in r.proofData)
  }

  /** What a delivered result says about the stored votes: each tally is what the accounts that signed
      for that side held, abstentions are all other holdings; map and list are one; with consensus an account
      is published exactly when it signed a vote for the majority, with its part of the emission, and
      without consensus only the zero address is, with nothing. */
  ghost predicate Sound(o: Oracles, chain: Chain, votes: seq<Vote>, r: Report) {
    && r.forVotes == Held(chain, Voters(o, votes, "for"))
    && r.againstVotes == Held(chain, Voters(o, votes, "against"))
    && r.abstainVotes == Total(chain.balances - (Voters(o, votes, "for") + Voters(o, votes, "against")))
    && r.forVotes + r.againstVotes + r.abstainVotes == Total(chain.balances)
    && MapMatchesList(r)
    && if Reached(chain, r) then
         forall a ::
           (a in r.proofData <==> Won(o, votes, a, MajorityOf(r))) &&
           (a in r.proofData ==> r.proofData[a].amount == EmissionTo(chain, a))
       else
         r.toReward == [Entry("0x0000000000000000000000000000000000000000", 0)]
  }

  lemma CountedIff(o: Oracles, votes: seq<Vote>, c: Counted)
    requires AllVerify(o, votes) && AllParse(o, Accepted(o, votes))
    ensures c in CountedOf(o, Accepted(o, votes)) <==>
      exists v :: v in votes && v.account == c.account && SignedWith(o, v, j => j == c.choice)
  {
    var signed := Accepted(o, votes);
    var cs := CountedOf(o, signed);
    AcceptedFrom(o, votes);
    if c in cs {
      var i :| 0 <= i < |cs| && cs[i] == c;
      assert signed[i] in signed;
      var v :| v in votes && Signer(o, v) == Some(v.account)
        && signed[i] == SignedVote(v.account, o.decrypt(v.cyphertext).value);
      assert SignedWith(o, v, j => j == c.choice);
    }
    if exists v :: v in votes && v.account == c.account && SignedWith(o, v, j => j == c.choice) {
      var v :| v in votes && v.account == c.account && SignedWith(o, v, j => j == c.choice);
      var s := SignedVote(v.account, o.decrypt(v.cyphertext).value);
      assert s in signed;
      var i :| 0 <= i < |signed| && signed[i] == s;
      assert cs[i] == c;
    }
  }

  lemma CastingIsVoters(o: Oracles, votes: seq<Vote>, side: string)
    requires AllVerify(o, votes) && AllParse(o, Accepted(o, votes))
    ensures Casting(CountedOf(o, Accepted(o, votes)), side) == Voters(o, votes, side)
  {
    forall a
      ensures a in Casting(CountedOf(o, Accepted(o, votes)), side) <==> a in Voters(o, votes, side)
    {
      CountedIff(o, votes, Counted(a, Str(side)));
    }
  }

  lemma VotedIffSigned(o: Oracles, votes: seq<Vote>, a: Address, side: string)
    requires AllVerify(o, votes) && AllParse(o, Accepted(o, votes))
    ensures VotedWithMajority(CountedOf(o, Accepted(o, votes)), a, side)
       <==> exists v :: v in votes && v.account == a && SignedWith(o, v, j => LooselyEquals(j, side))
  {
    var cs := CountedOf(o, Accepted(o, votes));
    if VotedWithMajority(cs, a, side) {
      var c :| c in cs && c.account == a && LooselyEquals(c.choice, side);
      CountedIff(o, votes, c);
      var v :| v in votes && v.account == c.account && SignedWith(o, v, j => j == c.choice);
      assert SignedWith(o, v, j => LooselyEquals(j, side));
    }
    if exists v :: v in votes && v.account == a && SignedWith(o, v, j => LooselyEquals(j, side)) {
      var v :| v in votes && v.account == a && SignedWith(o, v, j => LooselyEquals(j, side));
      var c := Counted(a, o.parse(o.decrypt(v.cyphertext).value).value);
      assert SignedWith(o, v, j => j == c.choice);
      CountedIff(o, votes, c);
    }
  }

  /** The signer is the claimed account, and the message has no fields. */
  predicate Malformed(o: Oracles, v: Vote) {
    o.decrypt(v.cyphertext).Some? &&
    var m := o.decrypt(v.cyphertext).value;
    o.recover(m, v.signature) == Some(v.account) && o.parse(m).None?
  }

  /** Every vote is readable: its message decrypts, its signer can be recovered, and the signed ones have
      fields. */
  predicate AllReadable(o: Oracles, votes: seq<Vote>) {
    forall v :: v in votes ==> Readable(o, v) && !Malformed(o, v)
  }

  lemma AllReadableIff(o: Oracles, votes: seq<Vote>)
    ensures AllReadable(o, votes) <==> AllVerify(o, votes) && AllParse(o, Accepted(o, votes))
  {
    AllVerifyIff(o, votes);
    if AllVerify(o, votes) {
      AcceptedFrom(o, votes);
      if v: Vote :| v in votes && Malformed(o, v) {
        assert SignedVote(v.account, o.decrypt(v.cyphertext).value) in Accepted(o, votes);
      }
    }
  }

  /** The comparison with the majority throws for some signed vote. */
  predicate SomeThrows(o: Oracles, votes: seq<Vote>) {
    exists v :: v in votes && SignedWith(o, v, j => TextThrows(j))
  }

  lemma ComparableIff(o: Oracles, votes: seq<Vote>)
    requires AllReadable(o, votes)
    ensures AllVerify(o, votes) && AllParse(o, Accepted(o, votes))
    ensures AllComparable(CountedOf(o, Accepted(o, votes))) <==> !SomeThrows(o, votes)
  {
    AllReadableIff(o, votes);
    var cs := CountedOf(o, Accepted(o, votes));
    forall c | c in cs && TextThrows(c.choice)
      ensures SomeThrows(o, votes)
    {
      CountedIff(o, votes, c);
      var v :| v in votes && v.account == c.account && SignedWith(o, v, j => j == c.choice);
      assert SignedWith(o, v, j => TextThrows(j));
    }
    if SomeThrows(o, votes) {
      var v :| v in votes && SignedWith(o, v, j => TextThrows(j));
      var c := Counted(v.account, o.parse(o.decrypt(v.cyphertext).value).value);
      assert SignedWith(o, v, j => j == c.choice);
      CountedIff(o, votes, c);
    }
  }

  /** The tallies of the readable votes, whether or not a result is delivered. */
  ghost predicate VotesReach(o: Oracles, chain: Chain, votes: seq<Vote>) {
    var forVotes, againstVotes := Held(chain, Voters(o, votes, "for")), Held(chain, Voters(o, votes, "against"));
    Reached(chain, Report(forVotes, againstVotes, 0, [], map[]))
  }

  lemma DecisionIs(o: Oracles, chain: Chain, votes: seq<Vote>)
    requires AllReadable(o, votes) && DistinctAccounts(votes)
    ensures AllVerify(o, votes) && AllParse(o, Accepted(o, votes))
    ensures DistinctVoters(CountedOf(o, Accepted(o, votes)))
    ensures var d := Decide(chain, CountedOf(o, Accepted(o, votes)));
      && d.forVotes == Held(chain, Voters(o, votes, "for")) && d.againstVotes == Held(chain, Voters(o, votes, "against"))
      && d.majority == (if d.forVotes > d.againstVotes then "for" else "against")
      && (d.consensus <==> VotesReach(o, chain, votes))
  {
    AllReadableIff(o, votes);
    AcceptedDistinct(o, votes);
    var cs := CountedOf(o, Accepted(o, votes));
    TallyIsHoldings(chain, cs, FOR);
    TallyIsHoldings(chain, cs, AGAINST);
    CastingIsVoters(o, votes, FOR);
    CastingIsVoters(o, votes, AGAINST);
    ConsensusIff(chain, cs);
  }

  /** A document with at most one vote per account is resolved, and soundly, exactly when it holds a
      list, the chain answers, all votes are readable, and no vote throws in the comparison that follows consensus. */
  lemma JobDeliversIff(o: Oracles, chain: Chain, data: Option<seq<Vote>>)
    requires data.Some? ==> DistinctAccounts(data.value)
    ensures JobResult(o, chain, data).Ok? <==>
      && data.Some? && o.answers && AllReadable(o, data.value)
      && (VotesReach(o, chain, data.value) ==> !SomeThrows(o, data.value))
    ensures JobResult(o, chain, data).Ok? ==> Sound(o, chain, data.value, JobResult(o, chain, data).value)
  {
    if data.Some? {
      AllReadableIff(o, data.value);
      if o.answers && AllReadable(o, data.value) {
        DecisionIs(o, chain, data.value);
        ComparableIff(o, data.value);
        DeliversIff(chain, CountedOf(o, Accepted(o, data.value)));
        if JobResult(o, chain, data).Ok? {
          DeliveredIsSound(o, chain, data.value);
        }
      }
    }
  }

  lemma MapIsList(o: Oracles, chain: Chain, votes: seq<Vote>)
    requires AllReadable(o, votes) && DistinctAccounts(votes) && JobResult(o, chain, Some(votes)).Ok?
    ensures MapMatchesList(JobResult(o, chain, Some(votes)).value)
  {
    DecisionIs(o, chain, votes);
    var cs, r := CountedOf(o, Accepted(o, votes)), JobResult(o, chain, Some(votes)).value;
    TreeNeverEmpty(chain, cs);
    PublishedRewards(chain, cs, "");
    MapHoldsLastEntry(ToReward(chain, cs));
  }

  lemma TalliesAreSound(o: Oracles, chain: Chain, votes: seq<Vote>)
    requires AllReadable(o, votes) && DistinctAccounts(votes) && JobResult(o, chain, Some(votes)).Ok?
    ensures var r, ins, outs := JobResult(o, chain, Some(votes)).value, Voters(o, votes, "for"), Voters(o, votes, "against");
      && r.forVotes == Held(chain, ins) && r.againstVotes == Held(chain, outs)
      && r.abstainVotes == Total(chain.balances - (ins + outs))
      && r.forVotes + r.againstVotes + r.abstainVotes == Total(chain.balances)
  {
    DecisionIs(o, chain, votes);
    var cs := CountedOf(o, Accepted(o, votes));
    TalliesPartitionSupply(chain, cs);
    DecidingIsCasting(cs);
    CastingIsVoters(o, votes, FOR);
    CastingIsVoters(o, votes, AGAINST);
  }

  lemma EmissionIs(chain: Chain, a: Address)
    ensures chain.Reward(a) == EmissionTo(chain, a)
  {
  }

  lemma RewardsAreSound(o: Oracles, chain: Chain, votes: seq<Vote>, a: Address)
    requires AllReadable(o, votes) && DistinctAccounts(votes) && JobResult(o, chain, Some(votes)).Ok?
    ensures var r := JobResult(o, chain, Some(votes)).value;
      if Reached(chain, r)
      then (a in r.proofData <==> Won(o, votes, a, MajorityOf(r)))
        && (a in r.proofData ==> r.proofData[a].amount == EmissionTo(chain, a))
      else r.toReward == [Entry("0x0000000000000000000000000000000000000000", 0)]
  {
    DecisionIs(o, chain, votes);
    var cs := CountedOf(o, Accepted(o, votes));
    if Decide(chain, cs).consensus {
      PublishedRewards(chain, cs, a);
      VotedIffSigned(o, votes, a, Decide(chain, cs).majority);
      EmissionIs(chain, a);
    }
  }

  lemma DeliveredIsSound(o: Oracles, chain: Chain, votes: seq<Vote>)
    requires AllReadable(o, votes) && DistinctAccounts(votes) && JobResult(o, chain, Some(votes)).Ok?
    ensures Sound(o, chain, votes, JobResult(o, chain, Some(votes)).value)
  {
    var r := JobResult(o, chain, Some(votes)).value;
    MapIsList(o, chain, votes);
    TalliesAreSound(o, chain, votes);
    RewardsAreSound(o, chain, votes, "");
    if Reached(chain, r) {
      forall a
        ensures a in r.proofData <==> Won(o, votes, a, MajorityOf(r))
        ensures a in r.proofData ==> r.proofData[a].amount == EmissionTo(chain, a)
      {
        RewardsAreSound(o, chain, votes, a);
      }
    }
  }

  /** The message of a vote is as readable as the voting page makes it. */
  predicate WellFormed(o: Oracles, v: Vote) {
    && Readable(o, v)
    && o.parse(o.decrypt(v.cyphertext).value).Some?
    && !TextThrows(o.parse(o.decrypt(v.cyphertext).value).value)
  }

  /** End to end: however the voting calls interleave on a fresh document, the job that reads it delivers
      a sound result if and only if at least one overwrite completed and the chain answers. */
  lemma AnyElectionResolves(o: Oracles, chain: Chain, ballots: seq<Vote>, events: seq<Event>)
    requires forall v :: v in ballots ==> WellFormed(o, v)
    ensures var s := Run(ballots, [], events);
      && (JobResult(o, chain, Document(s)).Ok? <==> s.version > 0 && o.answers)
      && (s.version > 0 && o.answers ==> Sound(o, chain, s.tile, JobResult(o, chain, Document(s)).value))
  {
    var s := Run(ballots, [], events);
    OneVotePerAccount(ballots, [], events);
    JobDeliversIff(o, chain, Document(s));
  }

  /** While nobody has voted the document holds no list, and the job fails. */
  lemma EmptyElectionFails(o: Oracles, chain: Chain, ballots: seq<Vote>)
    ensures JobResult(o, chain, Document(Run(ballots, [], []))) == Err(NoVotes)
  {
  }

  /** The failure of a job that does not deliver, in the order in which the job meets them. */
  lemma JobFailsWith(o: Oracles, chain: Chain, data: Option<seq<Vote>>)
    ensures JobResult(o, chain, data) == Err(NoVotes) <==> data.None?
    ensures data.Some? ==>
      var unreadable := exists v :: v in data.value && !Readable(o, v);
      && (JobResult(o, chain, data) == Err(Unverifiable) <==> unreadable)
      && (JobResult(o, chain, data) == Err(NoAnswer) <==> !unreadable && !o.answers)
      && (JobResult(o, chain, data) == Err(Unparsable) <==>
            !unreadable && o.answers && exists v :: v in data.value && Malformed(o, v))
  {
    if data.Some? {
      AllVerifyIff(o, data.value);
      AllReadableIff(o, data.value);
    }
  }

  lemma {:induction false} AcceptedConcat(o: Oracles, a: seq<Vote>, b: seq<Vote>)
    requires AllVerify(o, a + b)
    ensures AllVerify(o, a) && AllVerify(o, b) && Accepted(o, a + b) == Accepted(o, a) + Accepted(o, b)
  {
    assert forall v :: v in a || v in b ==> v in a + b;
    if b == [] {
      assert a + b == a;
    } else {
      var n := |b| - 1;
      assert (a + b)[..|a + b| - 1] == a + b[..n] && (a + b)[|a + b| - 1] == b[n];
      AcceptedConcat(o, a, b[..n]);
    }
  }

  /** A readable vote that somebody else signed changes nothing: the job yields the same without it. */
  lemma ForgedVoteIsIgnored(o: Oracles, chain: Chain, votes: seq<Vote>, k: nat, m: string, signer: Address)
    requires k < |votes| && o.decrypt(votes[k].cyphertext) == Some(m)
    requires o.recover(m, votes[k].signature) == Some(signer) && signer != votes[k].account
    ensures JobResult(o, chain, Some(votes)) == JobResult(o, chain, Some(Without(votes, k)))
  {
    var low, forged, high := votes[..k], [votes[k]], votes[k + 1..];
    AllVerifyIff(o, votes);
    AllVerifyIff(o, Without(votes, k));
    assert votes == low + (forged + high);
    if AllVerify(o, Without(votes, k)) {
      assert forall v :: v in votes ==> v in Without(votes, k) || v == votes[k];
      AcceptedConcat(o, low, forged + high);
      AcceptedConcat(o, forged, high);
      AcceptedConcat(o, low, high);
      assert Accepted(o, forged) == [] by {
        assert forged[..0] == [];
      }
      assert [] + Accepted(o, high) == Accepted(o, high);
    }
  }

  /** Each published claim is one that the contract accepts against the root of the same result. */
  lemma PublishedClaimsHold(o: Oracles, chain: Chain, data: Option<seq<Vote>>, a: Address)
    requires data.Some? ==> DistinctAccounts(data.value)
    requires JobResult(o, chain, data).Ok? && a in JobResult(o, chain, data).value.proofData
    ensures var r := JobResult(o, chain, data).value;
      Governor.ProofHolds(r.toReward, Governor.Attempt(a, r.proofData[a].amount, r.toReward, r.proofData[a].leaf))
  {
    JobDeliversIff(o, chain, data);
  }

  /** The emission on what some accounts hold of both tokens. */
  ghost function EmissionToAll(chain: Chain, accounts: set<Address>): nat {
    (HeldOf(chain.balances, accounts) + HeldOf(chain.ape, accounts)) * chain.emission / 1_000_000_000_000_000_000
  }

  lemma WinnersEmission(chain: Chain, cs: seq<Counted>)
    requires DistinctVoters(cs) && Decide(chain, cs).consensus
    ensures var paid, winners := ToReward(chain, cs), WinningAccounts(cs, Decide(chain, cs).majority);
      EmissionToAll(chain, winners) - (|paid| - 1) <= Paid(paid) <= EmissionToAll(chain, winners)
  {
    EmissionBound(chain, cs);
    WinnersHold(chain, cs, Decide(chain, cs).majority);
  }

  lemma WinnersArePublished(chain: Chain, cs: seq<Counted>)
    requires DistinctVoters(cs) && Decide(chain, cs).consensus
    ensures ProofData(ToReward(chain, cs)).Keys == WinningAccounts(cs, Decide(chain, cs).majority)
  {
    forall a
      ensures a in ProofData(ToReward(chain, cs)) <==> a in WinningAccounts(cs, Decide(chain, cs).majority)
    {
      PublishedRewards(chain, cs, a);
    }
  }

  /** The total that a delivered result with consensus pays is the emission on what the published accounts
      hold of both tokens, less at most one unit for each but one of them. */
  lemma ReportPays(o: Oracles, chain: Chain, data: Option<seq<Vote>>)
    requires data.Some? ==> DistinctAccounts(data.value)
    requires JobResult(o, chain, data).Ok? && Reached(chain, JobResult(o, chain, data).value)
    ensures var r := JobResult(o, chain, data).value;
      EmissionToAll(chain, r.proofData.Keys) - (|r.toReward| - 1) <= Paid(r.toReward) <= EmissionToAll(chain, r.proofData.Keys)
  {
    AllReadableIff(o, data.value);
    DecisionIs(o, chain, data.value);
    var cs := CountedOf(o, Accepted(o, data.value));
    WinnersEmission(chain, cs);
    WinnersArePublished(chain, cs);
  }

  /** When every message carries its side as text, as the voting page writes it, the rewarded
      snapshot balances are exactly the majority tally, so the total paid is bounded by it. */
  lemma TextVotesPayTheMajority(o: Oracles, chain: Chain, signed: seq<SignedVote>)
    requires AllParse(o, signed) && forall s :: s in signed ==> o.parse(s.message).value.Str?
    requires Decide(chain, CountedOf(o, signed)).consensus
    ensures var cs := CountedOf(o, signed);
      var d, paid := Decide(chain, cs), ToReward(chain, cs);
      var winners := Winners(cs, d.majority);
      var exact := (d.MajorityValue() + ApeOf(chain, winners)) * chain.emission / ONE_ETHER;
      && Snapshot(chain, winners) == d.MajorityValue()
      && exact - (|paid| - 1) <= Paid(paid) <= exact
  {
    var cs := CountedOf(o, signed);
    forall c | c in cs
      ensures !PaidUncounted(chain, c, Decide(chain, cs).majority)
    {
      var i :| 0 <= i < |cs| && cs[i] == c;
      assert signed[i] in signed;
    }
    EmissionBound(chain, cs);
  }
}
