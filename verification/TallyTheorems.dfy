/** Properties of the tallies, the decision and the reward list. */
module TallyTheorems {
  import opened Common
  import opened Tally

  // ---- Conservation of the supply ----

  lemma {:induction false} TotalWithout(m: map<Address, nat>, a: Address)
    requires a in m
    ensures Total(m) == m[a] + Total(m - {a})
  {
    var b :| b in m.Keys && Total(m) == m[b] + Total(m - {b});
    if a != b {
      TotalWithout(m - {b}, a);
      TotalWithout(m - {a}, b);
      assert m - {a} - {b} == m - {b} - {a};
    }
  }

  predicate Decides(c: Counted) { c.choice == Str(FOR) || c.choice == Str(AGAINST) }

  /** The accounts whose vote the tally counts. */
  function Deciding(cs: seq<Counted>): set<Address> {
    set c | c in cs && Decides(c) :: c.account
  }

  lemma DecidingLast(cs: seq<Counted>)
    requires cs != []
    ensures var n := |cs| - 1;
      Deciding(cs) == Deciding(cs[..n]) + if Decides(cs[n]) then {cs[n].account} else {}
    ensures DistinctVoters(cs) ==> cs[|cs| - 1].account !in Deciding(cs[..|cs| - 1])
  {
    assert cs == cs[..|cs| - 1] + [cs[|cs| - 1]];
  }

  lemma TotalWithoutOneMore(chain: Chain, s: set<Address>, a: Address)
    requires a !in s
    ensures Total(chain.balances - s) == Total(chain.balances - (s + {a})) + chain.Balance(a)
  {
    var m := chain.balances - s;
    assert m - {a} == chain.balances - (s + {a});
    if a in m {
      TotalWithout(m, a);
    } else {
      assert m - {a} == m;
    }
  }

  lemma {:induction false} SplitOfSupply(chain: Chain, cs: seq<Counted>)
    requires DistinctVoters(cs)
    ensures VotesFor(chain, cs, FOR) + VotesFor(chain, cs, AGAINST)
         + Total(chain.balances - Deciding(cs)) == chain.Supply()
  {
    if cs == [] {
      assert chain.balances - Deciding(cs) == chain.balances;
    } else {
      var n := |cs| - 1;
      SplitOfSupply(chain, cs[..n]);
      DecidingLast(cs);
      if Decides(cs[n]) {
        TotalWithoutOneMore(chain, Deciding(cs[..n]), cs[n].account);
      } else {
        assert Deciding(cs) == Deciding(cs[..n]);
      }
    }
  }

  /** With one vote per account the three tallies sum to the supply, and the abstentions are exactly
      the balances of the accounts that cast neither "for" nor "against". */
  lemma TalliesPartitionSupply(chain: Chain, cs: seq<Counted>)
    requires DistinctVoters(cs)
    ensures var d := Decide(chain, cs);
      && d.forVotes + d.againstVotes + d.abstainVotes == chain.Supply()
      && d.abstainVotes == Total(chain.balances - Deciding(cs)) >= 0
  {
    SplitOfSupply(chain, cs);
  }

  // ---- The decision ----

  lemma FloorBelow(value: nat, product: nat)
    ensures value >= product / ONE_ETHER <==> (value + 1) * ONE_ETHER > product
  {
  }

  /** Consensus holds exactly when the tallies differ and one more unit of the larger one would
      exceed the quorum share of the supply; then the majority is strictly the larger side. */
  lemma ConsensusIff(chain: Chain, cs: seq<Counted>)
    ensures var d := Decide(chain, cs);
      && (d.consensus <==>
            (d.forVotes != d.againstVotes && (d.MajorityValue() + 1) * ONE_ETHER > chain.Supply() * chain.quorum))
      && (d.consensus && d.majority == FOR ==> d.forVotes > d.againstVotes)
      && (d.consensus && d.majority == AGAINST ==> d.againstVotes > d.forVotes)
  {
    FloorBelow(Decide(chain, cs).MajorityValue(), chain.Supply() * chain.quorum);
  }

  lemma {:induction false} VotesNeedVoter(chain: Chain, cs: seq<Counted>, side: string)
    requires VotesFor(chain, cs, side) > 0
    ensures Rewards(chain, cs, side) != []
    ensures exists c :: c in cs && c.choice == Str(side) && chain.Balance(c.account) > 0
  {
    var n := |cs| - 1;
    if Weight(chain, cs[n], side) == 0 {
      VotesNeedVoter(chain, cs[..n], side);
      var c :| c in cs[..n] && c.choice == Str(side) && chain.Balance(c.account) > 0;
      assert c in cs;
    } else {
      assert cs[n] in cs;
    }
  }

  /** The list handed to the Merkle builder is never empty, whatever the votes: with consensus there
      is a winner of positive balance, without it the only entry pays nothing to the zero address. */
  lemma TreeNeverEmpty(chain: Chain, cs: seq<Counted>)
    ensures ToReward(chain, cs) != []
    ensures var d := Decide(chain, cs);
      if d.consensus then exists c :: c in cs && c.choice == Str(d.majority) && chain.Balance(c.account) > 0
      else ToReward(chain, cs) == [Entry(ADDRESS_ZERO, 0)]
  {
    var d := Decide(chain, cs);
    if d.consensus {
      VotesNeedVoter(chain, cs, d.majority);
    }
  }

  /** After the votes are accepted the job delivers exactly when no vote throws in the comparison that
      follows consensus, and the counted balances do not exceed the supply; with one vote per account
      they never do. */
  lemma DeliversIff(chain: Chain, cs: seq<Counted>)
    ensures var d := Decide(chain, cs);
      Outcome(chain, cs).Ok? <==> (d.consensus ==> AllComparable(cs)) && d.forVotes + d.againstVotes <= chain.Supply()
    ensures Outcome(chain, cs).Err? ==> Outcome(chain, cs).error in {Incomparable, NegativeAbstain}
    ensures DistinctVoters(cs) ==> (Outcome(chain, cs).Ok? <==> (Decide(chain, cs).consensus ==> AllComparable(cs)))
  {
    TreeNeverEmpty(chain, cs);
    if DistinctVoters(cs) {
      TalliesPartitionSupply(chain, cs);
    }
  }

  // ---- The tallies as holdings ----

  /** What a set of accounts holds of one token. */
  ghost function HeldOf(balances: map<Address, nat>, accounts: set<Address>): nat {
    Total(map a | a in balances && a in accounts :: balances[a])
  }

  /** The snapshot balances of a set of accounts. */
  ghost function Held(chain: Chain, accounts: set<Address>): nat {
    HeldOf(chain.balances, accounts)
  }

  lemma HeldByNobody(balances: map<Address, nat>, accounts: set<Address>)
    requires accounts !! balances.Keys
    ensures HeldOf(balances, accounts) == 0
  {
    var held := map a | a in balances && a in accounts :: balances[a];
    assert held.Keys == {};
  }

  function Casting(cs: seq<Counted>, side: string): set<Address> {
    set c | c in cs && c.choice == Str(side) :: c.account
  }

  lemma HeldOneMore(balances: map<Address, nat>, accounts: set<Address>, a: Address)
    requires a !in accounts
    ensures HeldOf(balances, accounts + {a}) == HeldOf(balances, accounts) + if a in balances then balances[a] else 0
  {
    var less := map b | b in balances && b in accounts :: balances[b];
    var more := map b | b in balances && b in accounts + {a} :: balances[b];
    assert more - {a} == less;
    if a in balances {
      TotalWithout(more, a);
    } else {
      assert more == less;
    }
  }

  lemma CastingLast(cs: seq<Counted>, side: string)
    requires cs != []
    ensures var n := |cs| - 1;
      Casting(cs, side) == Casting(cs[..n], side) + if cs[n].choice == Str(side) then {cs[n].account} else {}
    ensures DistinctVoters(cs) ==> cs[|cs| - 1].account !in Casting(cs[..|cs| - 1], side)
  {
    assert cs == cs[..|cs| - 1] + [cs[|cs| - 1]];
  }

  /** With one vote per account each tally is what the accounts that cast it hold. */
  lemma {:induction false} TallyIsHoldings(chain: Chain, cs: seq<Counted>, side: string)
    requires DistinctVoters(cs)
    ensures VotesFor(chain, cs, side) == Held(chain, Casting(cs, side))
  {
    if cs == [] {
      assert Casting(cs, side) == {};
      HeldByNobody(chain.balances, {});
    } else {
      var n := |cs| - 1;
      TallyIsHoldings(chain, cs[..n], side);
      CastingLast(cs, side);
      if cs[n].choice == Str(side) {
        HeldOneMore(chain.balances, Casting(cs[..n], side), cs[n].account);
      } else {
        assert Casting(cs, side) == Casting(cs[..n], side);
      }
    }
  }

  lemma DecidingIsCasting(cs: seq<Counted>)
    ensures Deciding(cs) == Casting(cs, FOR) + Casting(cs, AGAINST)
  {
  }

  // ---- How much is paid ----

  /** The accounts the reward loop pays, in order. */
  function Winners(cs: seq<Counted>, majority: string): seq<Counted> {
    if cs == [] then []
    else
      var n := |cs| - 1;
      Winners(cs[..n], majority) + if LooselyEquals(cs[n].choice, majority) then [cs[n]] else []
  }

  function Snapshot(chain: Chain, cs: seq<Counted>): nat {
    if cs == [] then 0
    else Snapshot(chain, cs[..|cs| - 1]) + chain.Balance(cs[|cs| - 1].account)
  }

  function ApeOf(chain: Chain, cs: seq<Counted>): nat {
    if cs == [] then 0
    else ApeOf(chain, cs[..|cs| - 1]) + chain.Ape(cs[|cs| - 1].account)
  }

  /** The accounts whose votes match a side loosely. */
  function WinningAccounts(cs: seq<Counted>, side: string): set<Address> {
    set c | c in cs && LooselyEquals(c.choice, side) :: c.account
  }

  lemma WinningLast(cs: seq<Counted>, side: string)
    requires cs != []
    ensures var n := |cs| - 1;
      WinningAccounts(cs, side) ==
        WinningAccounts(cs[..n], side) + if LooselyEquals(cs[n].choice, side) then {cs[n].account} else {}
    ensures DistinctVoters(cs) ==> cs[|cs| - 1].account !in WinningAccounts(cs[..|cs| - 1], side)
  {
    assert cs == cs[..|cs| - 1] + [cs[|cs| - 1]];
  }

  lemma WinnersLast(cs: seq<Counted>, side: string)
    requires cs != []
    ensures var n := |cs| - 1;
      Winners(cs, side) == if LooselyEquals(cs[n].choice, side) then Winners(cs[..n], side) + [cs[n]] else Winners(cs[..n], side)
  {
    assert Winners(cs[..|cs| - 1], side) + [] == Winners(cs[..|cs| - 1], side);
  }

  lemma {:induction false} WinnersSnapshot(chain: Chain, cs: seq<Counted>, side: string)
    requires DistinctVoters(cs)
    ensures Snapshot(chain, Winners(cs, side)) == HeldOf(chain.balances, WinningAccounts(cs, side))
  {
    if cs == [] {
      HeldByNobody(chain.balances, WinningAccounts(cs, side));
    } else {
      var n := |cs| - 1;
      var before := WinningAccounts(cs[..n], side);
      WinnersSnapshot(chain, cs[..n], side);
      WinningLast(cs, side);
      WinnersLast(cs, side);
      if LooselyEquals(cs[n].choice, side) {
        HoldingsOfOneMore(chain, Winners(cs[..n], side), cs[n]);
        HeldOneMore(chain.balances, before, cs[n].account);
      } else {
        assert before + {} == before;
      }
    }
  }

  lemma {:induction false} WinnersApe(chain: Chain, cs: seq<Counted>, side: string)
    requires DistinctVoters(cs)
    ensures ApeOf(chain, Winners(cs, side)) == HeldOf(chain.ape, WinningAccounts(cs, side))
  {
    if cs == [] {
      HeldByNobody(chain.ape, WinningAccounts(cs, side));
    } else {
      var n := |cs| - 1;
      var before := WinningAccounts(cs[..n], side);
      WinnersApe(chain, cs[..n], side);
      WinningLast(cs, side);
      WinnersLast(cs, side);
      if LooselyEquals(cs[n].choice, side) {
        HoldingsOfOneMore(chain, Winners(cs[..n], side), cs[n]);
        HeldOneMore(chain.ape, before, cs[n].account);
      } else {
        assert before + {} == before;
      }
    }
  }

  /** With one vote per account the winners hold, of either token, what their set of accounts holds. */
  lemma WinnersHold(chain: Chain, cs: seq<Counted>, side: string)
    requires DistinctVoters(cs)
    ensures Snapshot(chain, Winners(cs, side)) == HeldOf(chain.balances, WinningAccounts(cs, side))
    ensures ApeOf(chain, Winners(cs, side)) == HeldOf(chain.ape, WinningAccounts(cs, side))
  {
    WinnersSnapshot(chain, cs, side);
    WinnersApe(chain, cs, side);
  }

  /** Someone is paid without having been counted: the two loops compare the vote differently. */
  predicate PaidUncounted(chain: Chain, c: Counted, majority: string) {
    LooselyEquals(c.choice, majority) && c.choice != Str(majority) && chain.Balance(c.account) > 0
  }

  /** No holder is paid for a vote the tally did not count. */
  predicate AllPaidCounted(chain: Chain, cs: seq<Counted>, majority: string) {
    forall c :: c in cs ==> !PaidUncounted(chain, c, majority)
  }

  lemma AllPaidCountedLast(chain: Chain, cs: seq<Counted>, majority: string)
    requires cs != []
    ensures AllPaidCounted(chain, cs, majority) <==>
      AllPaidCounted(chain, cs[..|cs| - 1], majority) && !PaidUncounted(chain, cs[|cs| - 1], majority)
  {
    assert cs == cs[..|cs| - 1] + [cs[|cs| - 1]];
  }

  lemma HoldingsOfOneMore(chain: Chain, ws: seq<Counted>, c: Counted)
    ensures Snapshot(chain, ws + [c]) == Snapshot(chain, ws) + chain.Balance(c.account)
    ensures ApeOf(chain, ws + [c]) == ApeOf(chain, ws) + chain.Ape(c.account)
  {
    assert (ws + [c])[..|ws|] == ws;
  }

  lemma {:induction false} WinnersHoldMajority(chain: Chain, cs: seq<Counted>, majority: string)
    ensures Snapshot(chain, Winners(cs, majority)) >= VotesFor(chain, cs, majority)
    ensures Snapshot(chain, Winners(cs, majority)) == VotesFor(chain, cs, majority)
       <==> AllPaidCounted(chain, cs, majority)
  {
    if cs != [] {
      var n := |cs| - 1;
      WinnersHoldMajority(chain, cs[..n], majority);
      var ws := Winners(cs[..n], majority);
      HoldingsOfOneMore(chain, ws, cs[n]);
      assert ws + [] == ws;
      assert LooselyEquals(Str(majority), majority);
      AllPaidCountedLast(chain, cs, majority);
    }
  }

  lemma FloorOfSum(x: nat, y: nat, factor: nat)
    ensures x * factor / ONE_ETHER + y * factor / ONE_ETHER <= (x + y) * factor / ONE_ETHER
    ensures (x + y) * factor / ONE_ETHER <= x * factor / ONE_ETHER + y * factor / ONE_ETHER + 1
  {
    assert (x + y) * factor == x * factor + y * factor;
  }

  /** The emission on the winners' holdings in both tokens, computed at once. */
  function ExactEmission(chain: Chain, ws: seq<Counted>): nat {
    (Snapshot(chain, ws) + ApeOf(chain, ws)) * chain.emission / ONE_ETHER
  }

  lemma ExactEmissionOfOneMore(chain: Chain, ws: seq<Counted>, c: Counted)
    ensures ExactEmission(chain, ws) + chain.Reward(c.account) <= ExactEmission(chain, ws + [c])
    ensures ExactEmission(chain, ws + [c]) <= ExactEmission(chain, ws) + chain.Reward(c.account) + 1
    ensures ws == [] ==> ExactEmission(chain, ws + [c]) == chain.Reward(c.account)
  {
    HoldingsOfOneMore(chain, ws, c);
    FloorOfSum(Snapshot(chain, ws) + ApeOf(chain, ws), chain.Balance(c.account) + chain.Ape(c.account), chain.emission);
  }

  lemma PaidOneMore(es: seq<Entry>, e: Entry)
    ensures Paid(es + [e]) == Paid(es) + e.amount
  {
    assert (es + [e])[..|es|] == es;
  }

  lemma {:induction false} RoundingLoss(chain: Chain, cs: seq<Counted>, majority: string)
    ensures var ws, rs := Winners(cs, majority), Rewards(chain, cs, majority);
      && |rs| == |ws|
      && Paid(rs) <= ExactEmission(chain, ws)
      && (rs != [] ==> ExactEmission(chain, ws) <= Paid(rs) + |rs| - 1)
  {
    if cs != [] {
      var n := |cs| - 1;
      RoundingLoss(chain, cs[..n], majority);
      var ws, rs := Winners(cs[..n], majority), Rewards(chain, cs[..n], majority);
      assert ws + [] == ws && rs + [] == rs;
      if LooselyEquals(cs[n].choice, majority) {
        PaidOneMore(rs, Entry(cs[n].account, chain.Reward(cs[n].account)));
        ExactEmissionOfOneMore(chain, ws, cs[n]);
      }
    }
  }

  /** Emission bound. On consensus at least one account is paid, and the total lies within
      `winners - 1` units below the emission on the winners' balances in both tokens. Those
      snapshot balances are exactly the majority tally if and only if no holder was paid for a
      vote that only the looser comparison accepts. */
  lemma EmissionBound(chain: Chain, cs: seq<Counted>)
    requires Decide(chain, cs).consensus
    ensures var d, paid := Decide(chain, cs), ToReward(chain, cs);
      var ws := Winners(cs, d.majority);
      && |paid| == |ws| >= 1
      && ExactEmission(chain, ws) - (|paid| - 1) <= Paid(paid) <= ExactEmission(chain, ws)
      && (Snapshot(chain, ws) == d.MajorityValue() <==> AllPaidCounted(chain, cs, d.majority))
  {
    var d := Decide(chain, cs);
    TreeNeverEmpty(chain, cs);
    RoundingLoss(chain, cs, d.majority);
    WinnersHoldMajority(chain, cs, d.majority);
  }

  /** The two comparisons do differ: a vote sent as a one-element array is paid but not counted. */
  lemma ArrayVoteIsPaidUncounted()
    ensures var chain := Chain(map["a" := 3, "b" := 2], map[], 0, ONE_ETHER);
      var cs := [Counted("a", Str(FOR)), Counted("b", Arr([Str(FOR)]))];
      var d := Decide(chain, cs);
      d.consensus && d.forVotes == 3 && ToReward(chain, cs) == [Entry("a", 3), Entry("b", 2)]
  {
    var chain := Chain(map["a" := 3, "b" := 2], map[], 0, ONE_ETHER);
    var cs := [Counted("a", Str(FOR)), Counted("b", Arr([Str(FOR)]))];
    assert cs[..1] == [cs[0]] && cs[..1][..0] == [];
    assert VotesFor(chain, cs[..1], FOR) == 3 && VotesFor(chain, cs[..1], AGAINST) == 0;
    assert LooselyEquals(cs[1].choice, FOR) by {
      assert LooselyEquals(Str(FOR), FOR);
    }
    assert Rewards(chain, cs[..1], FOR) == [Entry("a", 3)];
  }

  /** One signed vote that cannot be converted to text stops a job that found consensus. */
  lemma UnprintableVoteStopsJob()
    ensures var chain := Chain(map["a" := 3], map[], 0, ONE_ETHER);
      Outcome(chain, [Counted("a", Str(FOR)), Counted("b", Unprintable)]) == Err(Incomparable)
  {
    var chain := Chain(map["a" := 3], map[], 0, ONE_ETHER);
    var cs := [Counted("a", Str(FOR)), Counted("b", Unprintable)];
    assert cs[..1] == [cs[0]] && cs[..1][..0] == [];
    assert VotesFor(chain, cs[..1], FOR) == 3 && VotesFor(chain, cs[..1], AGAINST) == 0;
    assert cs[1] in cs && TextThrows(cs[1].choice);
  }

  // ---- Neutrality ----

  function SwapSide(side: string): string {
    if side == FOR then AGAINST else if side == AGAINST then FOR else side
  }

  function SwapChoice(v: Json): Json {
    match v
    case Str(s) => Str(SwapSide(s))
    case Arr(elems) => if |elems| == 1 then Arr([SwapChoice(elems[0])]) else v
    case _ => v
  }

  function SwapVotes(cs: seq<Counted>): (r: seq<Counted>)
    ensures |r| == |cs|
  {
    if cs == [] then []
    else
      var n := |cs| - 1;
      SwapVotes(cs[..n]) + [cs[n].(choice := SwapChoice(cs[n].choice))]
  }

  lemma {:induction false} SwapChoiceMatches(v: Json, side: string)
    requires side == FOR || side == AGAINST
    ensures LooselyEquals(SwapChoice(v), SwapSide(side)) <==> LooselyEquals(v, side)
    ensures SwapChoice(v) == Str(SwapSide(side)) <==> v == Str(side)
  {
    if v.Arr? && |v.elems| == 1 {
      SwapChoiceMatches(v.elems[0], side);
    }
  }

  lemma {:induction false} SwapExchangesSides(chain: Chain, cs: seq<Counted>, side: string)
    requires side == FOR || side == AGAINST
    ensures VotesFor(chain, SwapVotes(cs), SwapSide(side)) == VotesFor(chain, cs, side)
    ensures Rewards(chain, SwapVotes(cs), SwapSide(side)) == Rewards(chain, cs, side)
  {
    if cs != [] {
      var n := |cs| - 1;
      SwapExchangesSides(chain, cs[..n], side);
      SwapChoiceMatches(cs[n].choice, side);
      assert SwapVotes(cs)[..n] == SwapVotes(cs[..n]);
    }
  }

  /** Neutrality: exchanging the two sides in every vote exchanges the two tallies and changes
      neither abstentions, consensus nor the reward list, ties included. */
  lemma Neutrality(chain: Chain, cs: seq<Counted>)
    ensures var d, e := Decide(chain, cs), Decide(chain, SwapVotes(cs));
      && e.forVotes == d.againstVotes && e.againstVotes == d.forVotes
      && e.abstainVotes == d.abstainVotes
      && e.consensus == d.consensus
      && (d.consensus ==> e.majority == SwapSide(d.majority))
      && ToReward(chain, SwapVotes(cs)) == ToReward(chain, cs)
  {
    SwapExchangesSides(chain, cs, FOR);
    SwapExchangesSides(chain, cs, AGAINST);
  }

  // ---- Order independence ----

  lemma {:induction false} VotesConcat(chain: Chain, a: seq<Counted>, b: seq<Counted>, side: string)
    ensures VotesFor(chain, a + b, side) == VotesFor(chain, a, side) + VotesFor(chain, b, side)
  {
    if b == [] {
      assert a + b == a;
    } else {
      var n := |b| - 1;
      VotesConcat(chain, a, b[..n], side);
      assert (a + b)[..|a| + n] == a + b[..n];
    }
  }

  lemma VotesWithout(chain: Chain, cs: seq<Counted>, k: nat, side: string)
    requires k < |cs|
    ensures VotesFor(chain, cs, side) == VotesFor(chain, Without(cs, k), side) + Weight(chain, cs[k], side)
  {
    VotesConcat(chain, cs[..k], cs[k + 1..], side);
    VotesConcat(chain, cs[..k] + [cs[k]], cs[k + 1..], side);
    OneMoreVote(chain, cs[..k], cs[k], side);
    assert cs == cs[..k] + [cs[k]] + cs[k + 1..];
  }

  lemma {:induction false} VotesOfPermutation(chain: Chain, cs: seq<Counted>, ds: seq<Counted>, side: string)
    requires multiset(cs) == multiset(ds)
    ensures VotesFor(chain, cs, side) == VotesFor(chain, ds, side)
  {
    if cs == [] {
      assert |multiset(ds)| == |ds|;
    } else {
      var k := MatchLast(cs, ds);
      VotesWithout(chain, ds, k, side);
      VotesOfPermutation(chain, cs[..|cs| - 1], Without(ds, k), side);
    }
  }

  lemma {:induction false} TimesRewarded(chain: Chain, cs: seq<Counted>, side: string, e: Entry, hit: Counted -> bool)
    requires forall c :: hit(c) <==> RewardOf(chain, c, side) == [e]
    ensures multiset(Rewards(chain, cs, side))[e] == Count(cs, hit)
  {
    if cs != [] {
      TimesRewarded(chain, cs[..|cs| - 1], side, e, hit);
    }
  }

  lemma RewardsOfPermutation(chain: Chain, cs: seq<Counted>, ds: seq<Counted>, side: string)
    requires multiset(cs) == multiset(ds)
    ensures multiset(Rewards(chain, cs, side)) == multiset(Rewards(chain, ds, side))
  {
    forall e
      ensures multiset(Rewards(chain, cs, side))[e] == multiset(Rewards(chain, ds, side))[e]
    {
      var hit := (c: Counted) => RewardOf(chain, c, side) == [e];
      TimesRewarded(chain, cs, side, e, hit);
      TimesRewarded(chain, ds, side, e, hit);
      CountOfPermutation(cs, ds, hit);
    }
  }

  /** Order independence: the order of the counted votes changes no tally and no decision, and the
      reward list only in its order. */
  lemma OrderIndependence(chain: Chain, cs: seq<Counted>, ds: seq<Counted>)
    requires multiset(cs) == multiset(ds)
    ensures Decide(chain, cs) == Decide(chain, ds)
    ensures multiset(ToReward(chain, cs)) == multiset(ToReward(chain, ds))
  {
    VotesOfPermutation(chain, cs, ds, FOR);
    VotesOfPermutation(chain, cs, ds, AGAINST);
    RewardsOfPermutation(chain, cs, ds, Decide(chain, cs).majority);
  }

  // ---- One more vote ----

  lemma OneMoreVote(chain: Chain, cs: seq<Counted>, c: Counted, side: string)
    ensures VotesFor(chain, cs + [c], side) == VotesFor(chain, cs, side) + Weight(chain, c, side)
    ensures Rewards(chain, cs + [c], side) == Rewards(chain, cs, side) + RewardOf(chain, c, side)
  {
    assert (cs + [c])[..|cs|] == cs;
  }

  /** Monotonicity: one more vote for the side that has consensus keeps the consensus, and the new
      reward list is the old one with the new voter appended. */
  lemma MajorityVoteKeepsConsensus(chain: Chain, cs: seq<Counted>, c: Counted)
    requires Decide(chain, cs).consensus && c.choice == Str(Decide(chain, cs).majority)
    ensures var d, e := Decide(chain, cs), Decide(chain, cs + [c]);
      && e.consensus && e.majority == d.majority
      && e.MajorityValue() == d.MajorityValue() + chain.Balance(c.account)
      && ToReward(chain, cs + [c]) == ToReward(chain, cs) + [Entry(c.account, chain.Reward(c.account))]
  {
    OneMoreVote(chain, cs, c, FOR);
    OneMoreVote(chain, cs, c, AGAINST);
  }

  /** A vote whose text is neither side changes no tally and no decision; it leaves the reward list
      alone too unless the looser comparison takes it for the side that has consensus. */
  lemma StrayVoteIsIgnored(chain: Chain, cs: seq<Counted>, c: Counted)
    requires c.choice != Str(FOR) && c.choice != Str(AGAINST)
    ensures Decide(chain, cs + [c]) == Decide(chain, cs)
    ensures ToReward(chain, cs + [c]) == ToReward(chain, cs)
       <==> !(Decide(chain, cs).consensus && LooselyEquals(c.choice, Decide(chain, cs).majority))
  {
    OneMoreVote(chain, cs, c, FOR);
    OneMoreVote(chain, cs, c, AGAINST);
    var rs := ToReward(chain, cs);
    assert |ToReward(chain, cs + [c])| == |rs| ==> ToReward(chain, cs + [c]) == rs;
  }

  // ---- The published map ----

  predicate DistinctEntries(entries: seq<Entry>) {
    forall i, j :: 0 <= i < j < |entries| ==> entries[i].account != entries[j].account
  }

  /** Each account is published with its last entry and the leaf of that very entry. */
  lemma {:induction false} MapHoldsLastEntry(entries: seq<Entry>)
    ensures var m := ProofData(entries);
      && (forall k :: 0 <= k < |entries| ==> entries[k].account in m && m[entries[k].account].leaf >= k)
      && (forall a :: a in m ==> m[a].leaf < |entries| && entries[m[a].leaf] == Entry(a, m[a].amount))
  {
    if entries != [] {
      var n := |entries| - 1;
      MapHoldsLastEntry(entries[..n]);
      var m := ProofData(entries[..n]);
      forall k | 0 <= k < n
        ensures entries[k].account in m && m[entries[k].account].leaf >= k
      {
        assert entries[..n][k] == entries[k];
      }
    }
  }

  lemma DistinctOneMore(entries: seq<Entry>, e: Entry)
    ensures DistinctEntries(entries + [e]) <==>
      DistinctEntries(entries) && forall i :: 0 <= i < |entries| ==> entries[i].account != e.account
  {
    var all := entries + [e];
    if DistinctEntries(all) {
      forall i, j | 0 <= i < j < |entries|
        ensures entries[i].account != entries[j].account
      {
        assert all[i] == entries[i] && all[j] == entries[j];
      }
      forall i | 0 <= i < |entries|
        ensures entries[i].account != e.account
      {
        assert all[i] == entries[i] && all[|entries|] == e;
      }
    }
  }

  lemma PublishedIff(entries: seq<Entry>, a: Address)
    ensures a in ProofData(entries) <==> exists i :: 0 <= i < |entries| && entries[i].account == a
  {
    MapHoldsLastEntry(entries);
  }

  /** No entry is overwritten exactly when the accounts are distinct. */
  lemma {:induction false} MapOverwritesNothingIff(entries: seq<Entry>)
    ensures |ProofData(entries)| <= |entries|
    ensures |ProofData(entries)| == |entries| <==> DistinctEntries(entries)
  {
    if entries != [] {
      var n := |entries| - 1;
      var m, e := ProofData(entries[..n]), entries[n];
      MapOverwritesNothingIff(entries[..n]);
      PublishedIff(entries[..n], e.account);
      DistinctOneMore(entries[..n], e);
      assert entries == entries[..n] + [e];
      assert m[e.account := Claim(e.amount, n)].Keys == m.Keys + {e.account};
    }
  }

  lemma {:induction false} RewardsFrom(chain: Chain, cs: seq<Counted>, majority: string)
    ensures forall e :: e in Rewards(chain, cs, majority) <==>
      exists c :: c in cs && LooselyEquals(c.choice, majority) && e == Entry(c.account, chain.Reward(c.account))
    ensures DistinctVoters(cs) ==> DistinctEntries(Rewards(chain, cs, majority))
  {
    if cs != [] {
      var n := |cs| - 1;
      RewardsFrom(chain, cs[..n], majority);
      assert cs == cs[..n] + [cs[n]];
      var rs := Rewards(chain, cs[..n], majority);
      if DistinctVoters(cs) {
        assert DistinctVoters(cs[..n]);
        forall i | 0 <= i < |rs|
          ensures rs[i].account != cs[n].account
        {
          assert rs[i] in rs;
          var c :| c in cs[..n] && LooselyEquals(c.choice, majority) && rs[i] == Entry(c.account, chain.Reward(c.account));
        }
      }
    }
  }

  predicate VotedWithMajority(cs: seq<Counted>, a: Address, majority: string) {
    exists c :: c in cs && c.account == a && LooselyEquals(c.choice, majority)
  }

  /** With one vote per account the published map offers a reward to an account other than the zero
      address exactly when there is consensus and the account's vote matches the majority; the
      amount is the computed one, the proof is for its leaf, and no entry was overwritten. */
  lemma PublishedRewards(chain: Chain, cs: seq<Counted>, a: Address)
    requires DistinctVoters(cs) && (a != ADDRESS_ZERO || Decide(chain, cs).consensus)
    ensures var d, m := Decide(chain, cs), ProofData(ToReward(chain, cs));
      && (a in m <==> d.consensus && VotedWithMajority(cs, a, d.majority))
      && (a in m ==> m[a].amount == chain.Reward(a))
      && (a in m ==> m[a].leaf < |ToReward(chain, cs)| && ToReward(chain, cs)[m[a].leaf] == Entry(a, m[a].amount))
      && |m| == |ToReward(chain, cs)|
  {
    var d, rs := Decide(chain, cs), ToReward(chain, cs);
    var m := ProofData(rs);
    MapHoldsLastEntry(rs);
    MapOverwritesNothingIff(rs);
    if d.consensus {
      RewardsFrom(chain, cs, d.majority);
      if a in m {
        assert rs[m[a].leaf] in rs;
      }
      if VotedWithMajority(cs, a, d.majority) {
        var c :| c in cs && c.account == a && LooselyEquals(c.choice, d.majority);
        assert Entry(c.account, chain.Reward(c.account)) in rs;
      }
    }
  }

  // ---- The loose comparison ----

  function Join(texts: seq<string>): string {
    if texts == [] then ""
    else if |texts| == 1 then texts[0]
    else texts[0] + "," + Join(texts[1..])
  }

  /** The text of a value, where its conversion does not throw: an array joins the texts of its elements with
      commas. `other` is the text of every value that is neither a string nor an array. */
  function Text(v: Json, other: string): string {
    match v
    case Str(s) => s
    case Arr(elems) => Join(seq(|elems|, k requires 0 <= k < |elems| => Text(elems[k], other)))
    case _ => other
  }

  lemma JoinHasComma(texts: seq<string>)
    requires |texts| >= 2
    ensures ',' in Join(texts)
  {
    assert (texts[0] + "," + Join(texts[1..]))[|texts[0]|] == ',';
  }

  /** The loose comparison compares the text of a value with the side. */
  lemma {:induction false} LooselyEqualsText(v: Json, side: string, other: string)
    requires side == "for" || side == "against"
    requires other != side
    ensures LooselyEquals(v, side) <==> Text(v, other) == side
    decreases v
  {
    if v.Arr? {
      var texts := seq(|v.elems|, k requires 0 <= k < |v.elems| => Text(v.elems[k], other));
      if |v.elems| == 1 {
        LooselyEqualsText(v.elems[0], side, other);
      } else if |v.elems| >= 2 {
        JoinHasComma(texts);
      }
    }
  }

  /** The value at a place inside nested arrays. */
  function PartAt(v: Json, path: seq<nat>): Option<Json> {
    if path == [] then Some(v)
    else if v.Arr? && path[0] < |v.elems| then PartAt(v.elems[path[0]], path[1..])
    else None
  }

  lemma {:induction false} UnprintablePartThrows(v: Json, path: seq<nat>)
    requires PartAt(v, path) == Some(Unprintable)
    ensures TextThrows(v)
    decreases path
  {
    if path != [] {
      UnprintablePartThrows(v.elems[path[0]], path[1..]);
    }
  }

  lemma {:induction false} ThrowingPart(v: Json) returns (path: seq<nat>)
    requires TextThrows(v)
    ensures PartAt(v, path) == Some(Unprintable)
    decreases v
  {
    if v.Unprintable? {
      path := [];
    } else {
      var k: nat :| k < |v.elems| && TextThrows(v.elems[k]);
      var rest := ThrowingPart(v.elems[k]);
      path := [k] + rest;
      assert path[1..] == rest;
    }
  }

  /** The conversion throws if and only if, at some depth, there is an object that cannot be converted. */
  lemma TextThrowsIff(v: Json)
    ensures TextThrows(v) <==> exists path :: PartAt(v, path) == Some(Unprintable)
  {
    if TextThrows(v) {
      var path := ThrowingPart(v);
    }
    if path :| PartAt(v, path) == Some(Unprintable) {
      UnprintablePartThrows(v, path);
    }
  }

  /** Both tokens enter a reward: at two rewards per unit, 3 and 4 units give 14. */
  lemma BothTokensAreRewarded()
    ensures var chain := Chain(map["a" := 3], map["a" := 4], 0, 2_000_000_000_000_000_000);
      ToReward(chain, [Counted("a", Str("for"))]) == [Entry("a", 14)]
  {
    var chain := Chain(map["a" := 3], map["a" := 4], 0, 2_000_000_000_000_000_000);
    var cs := [Counted("a", Str("for"))];
    assert cs[..0] == [];
    assert VotesFor(chain, cs[..0], FOR) == 0 && VotesFor(chain, cs[..0], AGAINST) == 0;
    assert VotesFor(chain, cs, FOR) == 3 && VotesFor(chain, cs, AGAINST) == 0;
    assert Rewards(chain, cs[..0], FOR) == [];
    assert chain.Reward("a") == 14;
  }
}
