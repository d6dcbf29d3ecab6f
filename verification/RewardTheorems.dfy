/** From the tally to the page: which rewards are offered, and what an offer is worth. */
module RewardTheorems {
  import opened Common
  import opened Tally
  import opened TallyTheorems
  import opened RewardLookup
  import opened Governor
  import opened GovernorTheorems

  /** What the job publishes for an account: amount and proof come from the tree of the list. */
  function RewardIn(root: seq<Entry>, account: Address): Reward
    requires account in ProofData(root)
  {
    Reward(ProofData(root)[account].amount, root, ProofData(root)[account].leaf)
  }

  /** The data of a result event that carries a job's published map. */
  function DataOf(root: seq<Entry>): Option<map<Address, Option<Reward>>> {
    Some(map a | a in ProofData(root) :: Some(RewardIn(root, a)))
  }

  /** The transaction that claims a reward. */
  function ClaimFor(account: Address, r: Reward): Attempt {
    Attempt(account, r.amount, r.list, r.leaf)
  }

  /** The lists that the results of a proposal delivered to the contract, in order. */
  function RootsOf(updates: seq<Updated>, id: string): seq<seq<Entry>> {
    if updates == [] then []
    else
      var n := |updates| - 1;
      RootsOf(updates[..n], id) + if updates[n].id == id then [updates[n].root] else []
  }

  /** The list that the contract holds for a proposal after all these results. */
  function Standing(updates: seq<Updated>, id: string): seq<Entry> {
    LastRoot(RootsOf(updates, id))
  }

  predicate Answers(ev: Events, id: string) {
    !ev.fails(id, Results) && !ev.fails(id, Claims)
  }

  /** The page makes an offer, and the contract, after `acts`, pays the offered claim. */
  predicate PaidOffer(ev: Events, head: int, id: string, account: Address, acts: seq<Act>) {
    var offer := Lookup(ev, head, id, account);
    offer.Some? && offer.value.Some? &&
    var o, l := offer.value.value, RunActs(acts).ledger;
    RunActs(acts + [Try(ClaimFor(account, o.reward))]).ledger
      == Ledger(l.claimed + {account}, l.events + [Entry(account, o.reward.amount)])
  }

  /** The result publishes this reward for the account. */
  predicate Publishes(u: Updated, account: Address, r: Reward) {
    u.data.Some? && account in u.data.value && u.data.value[account] == Some(r)
  }

  lemma TryPaysIff(acts: seq<Act>, a: Attempt)
    ensures var pot, l := RunActs(acts), RunActs(acts + [Try(a)]).ledger;
      l == Ledger(pot.ledger.claimed + {a.sender}, pot.ledger.events + [Entry(a.sender, a.amount)])
      <==> ProofHolds(pot.root, a) && a.sender !in pot.ledger.claimed
  {
    RunOneMore(acts, Try(a));
    assert |RunActs(acts).ledger.events + [Entry(a.sender, a.amount)]| > |RunActs(acts).ledger.events|;
  }

  lemma LookupReadsFirst(ev: Events, head: int, u: Updated, account: Address)
    requires Answers(ev, u.id) && FirstInWindow(ev.updates, u, head - LOOK_BACK, ev.tip)
    ensures var offer := Lookup(ev, head, u.id, account);
      && (offer.Some? && offer.value.Some? <==> exists r :: Publishes(u, account, r))
      && (offer.Some? && offer.value.Some? ==> Publishes(u, account, offer.value.value.reward))
  {
    var from, to := head - LOOK_BACK, ev.tip;
    FirstUpdateIs(ev.updates, u.id, from, to);
    var found := UpdatesOf(ev.updates, u.id, from, to);
    assert !NoneInWindow(ev.updates, u.id, from, to);
    FirstIsUnique(ev.updates, u, found[0], from, to);
    if Lookup(ev, head, u.id, account).Some? && Lookup(ev, head, u.id, account).value.Some? {
      assert Publishes(u, account, u.data.value[account].value);
    }
  }

  /** The page reads the first result in the window, the contract holds the last one: an offer is made
      that the contract pays if and only if the first result publishes a reward for the account whose
      proof leads to the standing root, and the account has not claimed. */
  lemma PaidOfferIff(ev: Events, head: int, id: string, account: Address, acts: seq<Act>)
    requires Answers(ev, id) && Roots(acts) == RootsOf(ev.updates, id)
    ensures PaidOffer(ev, head, id, account, acts) <==>
      && account !in RunActs(acts).ledger.claimed
      && exists u: Updated, r: Reward :: u.id == id && FirstInWindow(ev.updates, u, head - LOOK_BACK, ev.tip) && Publishes(u, account, r)
           && ProofHolds(Standing(ev.updates, id), ClaimFor(account, r))
  {
    var from, to, l := head - LOOK_BACK, ev.tip, RunActs(acts).ledger;
    LastRootStands(acts);
    FirstUpdateIs(ev.updates, id, from, to);
    var found := UpdatesOf(ev.updates, id, from, to);
    if found != [] {
      var u := found[0];
      LookupReadsFirst(ev, head, u, account);
      forall v: Updated | v.id == id && FirstInWindow(ev.updates, v, from, to)
        ensures v == u
      {
        FirstIsUnique(ev.updates, u, v, from, to);
      }
      if Lookup(ev, head, id, account).Some? && Lookup(ev, head, id, account).value.Some? {
        var o := Lookup(ev, head, id, account).value.value;
        TryPaysIff(acts, ClaimFor(account, o.reward));
        assert Publishes(u, account, o.reward);
      }
    }
  }

  // ---- Results of the job ----

  /** The result carries a list and the map published with it. */
  predicate Published(u: Updated) {
    u.data == DataOf(u.root)
  }

  /** An account is served as it should be: it is offered something exactly when the standing list has
      an entry for it, and then a claim that the contract accepts. */
  predicate Served(ev: Events, head: int, id: string, account: Address) {
    var offer, standing := Lookup(ev, head, id, account), Standing(ev.updates, id);
    && offer.Some?
    && (offer.value.Some? <==> account in ProofData(standing))
    && (offer.value.Some? ==> ProofHolds(standing, ClaimFor(account, offer.value.value.reward)))
  }

  /** For results as the job publishes them, an account is served if and only if the first result in the
      window and the standing list both list it, and then have the same tree, or neither lists it. */
  lemma PageServesIff(ev: Events, head: int, u: Updated, account: Address)
    requires Answers(ev, u.id) && FirstInWindow(ev.updates, u, head - LOOK_BACK, ev.tip) && Published(u)
    ensures var standing := Standing(ev.updates, u.id);
      Served(ev, head, u.id, account) <==>
        && (account in ProofData(u.root) <==> account in ProofData(standing))
        && (account in ProofData(u.root) ==> SameTree(u.root, standing))
  {
    LookupReadsPublished(ev, head, u, account);
    MapHoldsLastEntry(u.root);
  }

  lemma ListsSomeone(root: seq<Entry>)
    ensures root != [] ==> root[0].account in ProofData(root)
    ensures root == [] ==> ProofData(root) == map[]
  {
    MapHoldsLastEntry(root);
  }

  lemma SameTreeSameAccounts(a: seq<Entry>, b: seq<Entry>, account: Address)
    requires SameTree(a, b)
    ensures account in ProofData(a) <==> account in ProofData(b)
  {
    PublishedIff(a, account);
    PublishedIff(b, account);
    forall i | 0 <= i < |a|
      ensures a[i] in b
    {
      assert a[i] in multiset(a);
    }
    forall i | 0 <= i < |b|
      ensures b[i] in a
    {
      assert b[i] in multiset(b);
    }
  }

  /** So every account is served if and only if the first result in the window has the standing tree: a
      second result that changes the entry of one account takes the offers of all others with it. */
  lemma PageServesAllIff(ev: Events, head: int, u: Updated)
    requires Answers(ev, u.id) && FirstInWindow(ev.updates, u, head - LOOK_BACK, ev.tip) && Published(u)
    ensures (forall account :: Served(ev, head, u.id, account)) <==> SameTree(u.root, Standing(ev.updates, u.id))
  {
    var standing := Standing(ev.updates, u.id);
    if forall account :: Served(ev, head, u.id, account) {
      ListsSomeone(u.root);
      ListsSomeone(standing);
      if u.root != [] {
        PageServesIff(ev, head, u, u.root[0].account);
      } else if standing != [] {
        PageServesIff(ev, head, u, standing[0].account);
      }
    }
    if SameTree(u.root, standing) {
      forall account
        ensures Served(ev, head, u.id, account)
      {
        SameTreeSameAccounts(u.root, standing, account);
        PageServesIff(ev, head, u, account);
      }
    }
  }

  lemma LookupReadsPublished(ev: Events, head: int, u: Updated, account: Address)
    requires Answers(ev, u.id) && FirstInWindow(ev.updates, u, head - LOOK_BACK, ev.tip) && Published(u)
    ensures var offer, m := Lookup(ev, head, u.id, account), ProofData(u.root);
      && offer.Some? && (offer.value.Some? <==> account in m)
      && (account in m ==> offer.value.value.reward == RewardIn(u.root, account))
  {
    var from, to := head - LOOK_BACK, ev.tip;
    FirstUpdateIs(ev.updates, u.id, from, to);
    var found := UpdatesOf(ev.updates, u.id, from, to);
    assert !NoneInWindow(ev.updates, u.id, from, to);
    FirstIsUnique(ev.updates, u, found[0], from, to);
  }

  lemma PublishedPaidIff(ev: Events, head: int, u: Updated, account: Address, acts: seq<Act>)
    requires Answers(ev, u.id) && FirstInWindow(ev.updates, u, head - LOOK_BACK, ev.tip) && Published(u)
    requires Roots(acts) == RootsOf(ev.updates, u.id)
    ensures PaidOffer(ev, head, u.id, account, acts) <==>
      && account in ProofData(u.root) && account !in RunActs(acts).ledger.claimed
      && SameTree(u.root, Standing(ev.updates, u.id))
  {
    LookupReadsPublished(ev, head, u, account);
    LastRootStands(acts);
    if account in ProofData(u.root) {
      MapHoldsLastEntry(u.root);
      TryPaysIff(acts, ClaimFor(account, RewardIn(u.root, account)));
    }
  }

  /** When the first result in the window is the job's, with one vote per account, an account other than
      the zero address is offered a reward if and only if there was consensus and it voted with the
      majority; the amount is the computed one. The contract pays it if and only if, besides, the
      account has not claimed and the standing list has exactly the entries of that result. */
  lemma OfferIffWon(chain: Chain, cs: seq<Counted>, ev: Events, head: int, u: Updated, account: Address, acts: seq<Act>)
    requires DistinctVoters(cs) && account != ADDRESS_ZERO && Answers(ev, u.id)
    requires FirstInWindow(ev.updates, u, head - LOOK_BACK, ev.tip) && Published(u) && u.root == ToReward(chain, cs)
    requires Roots(acts) == RootsOf(ev.updates, u.id)
    ensures var offer, d := Lookup(ev, head, u.id, account), Decide(chain, cs);
      && offer.Some?
      && (offer.value.Some? <==> d.consensus && VotedWithMajority(cs, account, d.majority))
      && (offer.value.Some? ==> offer.value.value.reward.amount == chain.Reward(account))
      && (PaidOffer(ev, head, u.id, account, acts) <==>
            && d.consensus && VotedWithMajority(cs, account, d.majority)
            && account !in RunActs(acts).ledger.claimed
            && SameTree(u.root, Standing(ev.updates, u.id)))
  {
    LookupReadsPublished(ev, head, u, account);
    PublishedRewards(chain, cs, account);
    PublishedPaidIff(ev, head, u, account, acts);
  }

  lemma OnlyOneIsFirst(updates: seq<Updated>, u: Updated, from: int, to: int)
    requires u in updates && forall v :: v in updates && v.id == u.id && from <= v.block <= to ==> v == u
    ensures if from <= u.block <= to then FirstInWindow(updates, u, from, to) else NoneInWindow(updates, u.id, from, to)
  {
    FirstUpdateIs(updates, u.id, from, to);
    var k :| 0 <= k < |updates| && updates[k] == u;
    if from <= u.block <= to {
      var found := UpdatesOf(updates, u.id, from, to);
      assert FirstInWindow(updates, found[0], from, to);
      assert found[0] == u;
    }
  }

  /** In particular, while no other result is in the window and the list of this one stands, the page
      offers a reward that the contract pays to exactly the winners that have not claimed, as long as
      the result is in the window. */
  lemma OnlyResultServesWinners(chain: Chain, cs: seq<Counted>, ev: Events, head: int, u: Updated, account: Address, acts: seq<Act>)
    requires DistinctVoters(cs) && account != ADDRESS_ZERO && Answers(ev, u.id)
    requires u in ev.updates && forall v :: v in ev.updates && v.id == u.id && head - LOOK_BACK <= v.block <= ev.tip ==> v == u
    requires Published(u) && u.root == ToReward(chain, cs) && SameTree(u.root, Standing(ev.updates, u.id))
    requires Roots(acts) == RootsOf(ev.updates, u.id)
    ensures PaidOffer(ev, head, u.id, account, acts) <==>
      && head - LOOK_BACK <= u.block <= ev.tip && account !in RunActs(acts).ledger.claimed
      && Decide(chain, cs).consensus && VotedWithMajority(cs, account, Decide(chain, cs).majority)
  {
    OnlyOneIsFirst(ev.updates, u, head - LOOK_BACK, ev.tip);
    PublishedRewards(chain, cs, account);
    if head - LOOK_BACK <= u.block <= ev.tip {
      PublishedPaidIff(ev, head, u, account, acts);
    } else {
      NothingInWindow(ev, head, u.id, account);
    }
  }

  lemma NothingInWindow(ev: Events, head: int, id: string, account: Address)
    requires Answers(ev, id) && NoneInWindow(ev.updates, id, head - LOOK_BACK, ev.tip)
    ensures Lookup(ev, head, id, account) == Some(None)
  {
    FirstUpdateIs(ev.updates, id, head - LOOK_BACK, ev.tip);
  }

  lemma OneEntry(e: Entry)
    ensures ProofData([e]) == map[e.account := Claim(e.amount, 0)]
  {
    assert [e][..0] == [] && ProofData([]) == map[];
  }

  lemma RootsOfTwo(u: Updated, v: Updated)
    requires u.id == v.id
    ensures RootsOf([u, v], u.id) == [u.root, v.root]
  {
    assert [u, v][..1] == [u] && [u][..0] == [];
    assert RootsOf([u], u.id) == [u.root];
  }

  lemma DeliverTwo(first: seq<Entry>, second: seq<Entry>)
    ensures var acts := [Redeliver(first), Redeliver(second)];
      Roots(acts) == [first, second] && RunActs(acts).root == second
  {
    var acts := [Redeliver(first), Redeliver(second)];
    assert acts[..1] == [Redeliver(first)] && [Redeliver(first)][..0] == [];
    assert Roots([Redeliver(first)]) == [first];
  }

  lemma TwoEntries(e: Entry, f: Entry)
    requires e.account != f.account
    ensures ProofData([e, f]) == map[e.account := Claim(e.amount, 0), f.account := Claim(f.amount, 1)]
  {
    OneEntry(e);
    assert [e, f][..1] == [e];
  }

  /** Two results in one window. The first account has the same entry at the same leaf in both lists, and
      the contract refuses the claim it is offered, because the other entries differ. The second account
      lost its entry and is offered it. The third gained one that the contract would pay, and is offered
      nothing. */
  lemma SecondResultMisleadsPage()
    ensures var first, second := [Entry("a", 5), Entry("b", 3)], [Entry("a", 5), Entry("c", 3)];
      var updates := [Updated(2000, "p", first, DataOf(first)), Updated(2001, "p", second, DataOf(second))];
      var ev := Events(updates, [], 2002, 2002, (_, _) => false);
      var acts := [Redeliver(first), Redeliver(second)];
      && Roots(acts) == RootsOf(updates, "p")
      && Lookup(ev, 2002, "p", "a") == Some(Some(Offer(Reward(5, first, 0), false))) && !PaidOffer(ev, 2002, "p", "a", acts)
      && Lookup(ev, 2002, "p", "b") == Some(Some(Offer(Reward(3, first, 1), false))) && !PaidOffer(ev, 2002, "p", "b", acts)
      && Lookup(ev, 2002, "p", "c") == Some(None) && ProofHolds(RunActs(acts).root, Attempt("c", 3, second, 1))
  {
    var first, second := [Entry("a", 5), Entry("b", 3)], [Entry("a", 5), Entry("c", 3)];
    var u, v := Updated(2000, "p", first, DataOf(first)), Updated(2001, "p", second, DataOf(second));
    var ev := Events([u, v], [], 2002, 2002, (_, _) => false);
    var acts := [Redeliver(first), Redeliver(second)];
    TwoEntries(first[0], first[1]);
    assert FirstInWindow([u, v], u, 1002, 2002) by {
      assert [u, v][0] == u;
    }
    RootsOfTwo(u, v);
    DeliverTwo(first, second);
    assert !SameTree(first, second) by {
      assert first[1] in multiset(first) && first[1] !in multiset(second);
    }
    LookupReadsPublished(ev, 2002, u, "a");
    LookupReadsPublished(ev, 2002, u, "b");
    LookupReadsPublished(ev, 2002, u, "c");
    PublishedPaidIff(ev, 2002, u, "a", acts);
    PublishedPaidIff(ev, 2002, u, "b", acts);
  }

  /** A winner whose result has left the window, with no newer one in it, is offered nothing, although
      the contract would pay the claim that was published. */
  lemma OldWinnerIsNotOffered(chain: Chain, cs: seq<Counted>, ev: Events, head: int, id: string, account: Address, acts: seq<Act>)
    requires DistinctVoters(cs) && account != ADDRESS_ZERO && Answers(ev, id)
    requires Decide(chain, cs).consensus && VotedWithMajority(cs, account, Decide(chain, cs).majority)
    requires NoneInWindow(ev.updates, id, head - LOOK_BACK, ev.tip)
    requires Standing(ev.updates, id) == ToReward(chain, cs) && Roots(acts) == RootsOf(ev.updates, id)
    requires account !in RunActs(acts).ledger.claimed
    ensures Lookup(ev, head, id, account) == Some(None)
    ensures var standing, l := Standing(ev.updates, id), RunActs(acts).ledger;
      && account in ProofData(standing)
      && RunActs(acts + [Try(ClaimFor(account, RewardIn(standing, account)))]).ledger
         == Ledger(l.claimed + {account}, l.events + [Entry(account, chain.Reward(account))])
  {
    FirstUpdateIs(ev.updates, id, head - LOOK_BACK, ev.tip);
    PublishedRewards(chain, cs, account);
    LastRootStands(acts);
    TryPaysIff(acts, ClaimFor(account, RewardIn(Standing(ev.updates, id), account)));
  }

  // ---- The flag of an offer ----

  predicate ClaimedBy(ev: Events, id: string, account: Address) {
    exists c :: c in ev.claims && c.id == id && c.account == account && c.block <= ev.claimTip
  }

  predicate ClaimsOnce(claims: seq<Claimed>, id: string, account: Address) {
    forall i, j :: 0 <= i < j < |claims| && claims[i].id == id && claims[j].id == id ==>
      !(claims[i].account == account && claims[j].account == account)
  }

  /** Who claimed for a proposal, in the order of the events. */
  function Claimants(claims: seq<Claimed>, id: string): seq<Address> {
    if claims == [] then []
    else
      var n := |claims| - 1;
      Claimants(claims[..n], id) + if claims[n].id == id then [claims[n].account] else []
  }

  lemma {:induction false} ClaimantIs(claims: seq<Claimed>, id: string, k: nat)
    requires k < |claims| && claims[k].id == id
    ensures claims[k].account in Claimants(claims, id)
  {
    var n := |claims| - 1;
    if k < n {
      assert claims[..n][k] == claims[k];
      ClaimantIs(claims[..n], id, k);
    }
  }

  lemma {:induction false} DistinctClaimants(claims: seq<Claimed>, id: string, account: Address)
    requires NoDuplicates(Claimants(claims, id))
    ensures ClaimsOnce(claims, id, account)
  {
    if claims != [] {
      var n := |claims| - 1;
      var before, all := Claimants(claims[..n], id), Claimants(claims, id);
      assert forall i :: 0 <= i < |before| ==> all[i] == before[i];
      DistinctClaimants(claims[..n], id, account);
      forall i | 0 <= i < n && claims[i].id == id && claims[n].id == id
        ensures claims[i].account != claims[n].account
      {
        assert claims[..n][i] == claims[i];
        ClaimantIs(claims[..n], id, i);
        assert all[|before|] == claims[n].account;
      }
      forall i, j | 0 <= i < j < |claims| && claims[i].id == id && claims[j].id == id
        ensures !(claims[i].account == account && claims[j].account == account)
      {
        if j < n {
          assert claims[..n][i] == claims[i] && claims[..n][j] == claims[j];
        }
      }
    }
  }

  /** The claim events of a proposal are those of a run of the contract. */
  predicate FromContract(claims: seq<Claimed>, id: string, acts: seq<Act>) {
    var events := RunActs(acts).ledger.events;
    |Claimants(claims, id)| == |events| &&
    forall i :: 0 <= i < |events| ==> Claimants(claims, id)[i] == events[i].account
  }

  /** Whatever results and claims the contract took, the flag of an offer is right if and only if every
      claim of the account is in the look-back window. */
  lemma ClaimFlagExactIff(ev: Events, head: int, id: string, account: Address, acts: seq<Act>)
    requires FromContract(ev.claims, id, acts)
    requires Lookup(ev, head, id, account).Some? && Lookup(ev, head, id, account).value.Some?
    ensures (Lookup(ev, head, id, account).value.value.alreadyClaimed <==> ClaimedBy(ev, id, account))
       <==> forall c :: c in ev.claims && c.id == id && c.account == account && c.block <= ev.claimTip ==>
              c.block >= head - LOOK_BACK
    ensures Lookup(ev, head, id, account).value.value.alreadyClaimed ==> ClaimedBy(ev, id, account)
  {
    RedeliveryPaysOnce(acts);
    assert NoDuplicates(Claimants(ev.claims, id));
    DistinctClaimants(ev.claims, id, account);
    var seen := ClaimSeen(ev.claims, id, account, head - LOOK_BACK, ev.claimTip);
    assert Lookup(ev, head, id, account).value.value.alreadyClaimed == seen;
    if c: Claimed :| c in ev.claims && c.id == id && c.account == account && c.block <= ev.claimTip {
      OnlyClaim(ev.claims, c);
    }
  }

  lemma OnlyClaim(claims: seq<Claimed>, c: Claimed)
    requires c in claims && ClaimsOnce(claims, c.id, c.account)
    ensures forall d :: d in claims && d.id == c.id && d.account == c.account ==> d == c
  {
    var k :| 0 <= k < |claims| && claims[k] == c;
  }

  lemma ClaimBetween(root: seq<Entry>, a: Attempt)
    requires ProofHolds(root, a)
    ensures RunActs([Redeliver(root), Try(a), Redeliver(root)]).ledger.events == [Entry(a.sender, a.amount)]
  {
    var acts := [Redeliver(root), Try(a), Redeliver(root)];
    assert acts[..2] == [Redeliver(root), Try(a)] && acts[..2][..1] == [Redeliver(root)] && acts[..1][..0] == [];
    assert RunActs([Redeliver(root)]) == Pot(root, NOTHING_PAID);
    assert RunActs(acts[..2]).ledger.events == [Entry(a.sender, a.amount)];
  }

  /** In particular it is right when no result is older than the window: claims follow a result. */
  lemma RecentResultsFlagExact(ev: Events, head: int, id: string, account: Address, acts: seq<Act>)
    requires FromContract(ev.claims, id, acts)
    requires Lookup(ev, head, id, account).Some? && Lookup(ev, head, id, account).value.Some?
    requires forall c :: c in ev.claims && c.id == id ==> exists u :: u in ev.updates && u.id == id && u.block <= c.block
    requires forall u :: u in ev.updates && u.id == id ==> u.block >= head - LOOK_BACK
    ensures Lookup(ev, head, id, account).value.value.alreadyClaimed <==> ClaimedBy(ev, id, account)
  {
    ClaimFlagExactIff(ev, head, id, account, acts);
  }

  /** The condition can fail: after a claim on a first result, before the window, a second result in it
      shows the reward as open. */
  lemma OldClaimShowsOpen()
    ensures var root := [Entry("a", 5)];
      var updates := [Updated(5, "p", root, DataOf(root)), Updated(2000, "p", root, DataOf(root))];
      var ev := Events(updates, [Claimed(6, "p", "a")], 2002, 2002, (_, _) => false);
      && FromContract(ev.claims, "p", [Redeliver(root), Try(Attempt("a", 5, root, 0)), Redeliver(root)])
      && Lookup(ev, 2002, "p", "a") == Some(Some(Offer(Reward(5, root, 0), false))) && ClaimedBy(ev, "p", "a")
  {
    var root := [Entry("a", 5)];
    var u, v := Updated(5, "p", root, DataOf(root)), Updated(2000, "p", root, DataOf(root));
    var ev := Events([u, v], [Claimed(6, "p", "a")], 2002, 2002, (_, _) => false);
    OneEntry(root[0]);
    assert FirstInWindow([u, v], v, 1002, 2002) by {
      assert [u, v][1] == v;
    }
    LookupReadsPublished(ev, 2002, v, "a");
    assert Claimed(6, "p", "a") in ev.claims;
    ClaimBetween(root, Attempt("a", 5, root, 0));
    assert Claimants([Claimed(6, "p", "a")][..0], "p") == [];
  }
}
