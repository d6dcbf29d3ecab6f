/** Properties of a proposal's state and of its rewards over whole runs of the contract. */
module GovernorTheorems {
  import opened Common
  import opened Tally
  import opened TallyTheorems
  import opened Governor

  // ---- The contract agrees with the job ----

  /** Storing the job's result moves a proposal that waits for it to succeeded exactly when the job
      found consensus with majority "for", and to defeated otherwise, if and only if a majority "for"
      reaches the share of the quorum the contract reads exactly when it reached that of the one the
      job read. */
  lemma ContractAgreesWithJobIff(chain: Chain, cs: seq<Counted>, p: Proposal, quorum: nat, now: nat)
    requires Outcome(chain, cs).Ok? && p.supply == chain.Supply()
    requires State(p, quorum, now) == Some(ResolutionRequested)
    ensures var d, q := Decide(chain, cs), Delivered(p, Outcome(chain, cs).value);
      State(q, quorum, now) == Some(if d.consensus && d.majority == FOR then Succeeded else Defeated)
      <==> (d.forVotes > d.againstVotes ==> (d.forVotes >= Share(p, quorum) <==> d.forVotes >= Share(p, chain.quorum)))
  {
    TreeNeverEmpty(chain, cs);
    assert chain.quorum * p.supply == p.supply * chain.quorum;
  }

  // ---- The state over whole runs ----

  function RunSteps(w: World, steps: seq<Step>): World {
    if steps == [] then w
    else Next(RunSteps(w, steps[..|steps| - 1]), steps[|steps| - 1])
  }

  /** The world after the first `i` steps. */
  function At(w: World, steps: seq<Step>, i: nat): World
    requires i <= |steps|
  {
    RunSteps(w, steps[..i])
  }

  lemma AtNext(w: World, steps: seq<Step>, i: nat)
    requires i < |steps|
    ensures At(w, steps, i + 1) == Next(At(w, steps, i), steps[i])
  {
    assert steps[..i + 1][..i] == steps[..i];
  }

  /** Time alone opens the vote after its start, closes it after its deadline, and does nothing else. */
  lemma TimePasses(w: World, later: nat)
    requires later >= w.now && IsLive(w.p) && w.p.bridgeId == 0
    ensures Next(w, Wait(later)).p == w.p && Next(w, Wait(later)).quorum == w.quorum && Next(w, Wait(later)).jobs == w.jobs
    ensures w.p.voteStart < later <= w.p.voteEnd ==> Next(w, Wait(later)).Status() == Some(Active)
    ensures w.p.voteStart < later && w.p.voteEnd < later ==> Next(w, Wait(later)).Status() == Some(ResolutionToRequest)
  {
  }

  function Stage(s: Status): nat {
    match s
    case Pending => 0
    case Active => 1
    case ResolutionToRequest => 2
    case ResolutionRequested => 3
    case Succeeded => 4
    case Defeated => 4
    case _ => 5
  }

  function StageOf(w: World): nat {
    if w.Status().Some? then Stage(w.Status().value) else 0
  }

  /** The steps that take a proposal back: the report that a job of a requested or decided proposal
      failed, and a result without root for a decided one. */
  predicate MovesBack(w: World, step: Step) {
    match step
    case Cancel(job) => job in w.jobs && StageOf(w) in {3, 4}
    case Fulfil(job, r) => job in w.jobs && StageOf(w) == 4 && r.toReward == []
    case _ => false
  }

  lemma StepMovesBackIff(w: World, step: Step)
    ensures StageOf(Next(w, step)) < StageOf(w) <==> MovesBack(w, step)
  {
  }

  lemma {:induction false} NeverDown(stages: seq<nat>, i: nat, j: nat)
    requires i <= j < |stages| && forall k :: 0 < k < |stages| ==> stages[k - 1] <= stages[k]
    ensures stages[i] <= stages[j]
  {
    if i < j {
      NeverDown(stages, i, j - 1);
    }
  }

  lemma StagesAt(w: World, steps: seq<Step>) returns (stages: seq<nat>)
    ensures |stages| == |steps| + 1
    ensures forall i :: 0 <= i <= |steps| ==> stages[i] == StageOf(At(w, steps, i))
    ensures forall k :: 0 < k < |stages| ==> (stages[k] < stages[k - 1] <==> MovesBack(At(w, steps, k - 1), steps[k - 1]))
  {
    stages := seq(|steps| + 1, i requires 0 <= i < |steps| + 1 => StageOf(At(w, steps, i)));
    forall k | 0 < k < |stages|
      ensures stages[k] < stages[k - 1] <==> MovesBack(At(w, steps, k - 1), steps[k - 1])
    {
      AtNext(w, steps, k - 1);
      StepMovesBackIff(At(w, steps, k - 1), steps[k - 1]);
    }
  }

  /** Over any run the stages only go forward if and only if no step is one of those. */
  lemma StagesAdvanceIff(w: World, steps: seq<Step>)
    ensures (forall i, j :: 0 <= i <= j <= |steps| ==> StageOf(At(w, steps, i)) <= StageOf(At(w, steps, j)))
       <==> (forall i :: 0 <= i < |steps| ==> !MovesBack(At(w, steps, i), steps[i]))
  {
    var stages := StagesAt(w, steps);
    forall i | 0 <= i < |steps|
      ensures stages[i + 1] < stages[i] <==> MovesBack(At(w, steps, i), steps[i])
    {
      assert stages[(i + 1) - 1] == stages[i];
    }
    if forall i, j :: 0 <= i <= j <= |steps| ==> StageOf(At(w, steps, i)) <= StageOf(At(w, steps, j)) {
      forall i | 0 <= i < |steps|
        ensures !MovesBack(At(w, steps, i), steps[i])
      {
        assert StageOf(At(w, steps, i)) <= StageOf(At(w, steps, i + 1));
      }
    }
    if forall i :: 0 <= i < |steps| ==> !MovesBack(At(w, steps, i), steps[i]) {
      forall i, j | 0 <= i <= j <= |steps|
        ensures StageOf(At(w, steps, i)) <= StageOf(At(w, steps, j))
      {
        NeverDown(stages, i, j);
      }
    }
  }

  /** Whether tallies give the verdict. */
  predicate Gives(forVotes: nat, againstVotes: nat, share: nat, verdict: Status) {
    if verdict == Succeeded then forVotes > againstVotes && forVotes >= share
    else forVotes <= againstVotes || forVotes < share
  }

  /** The steps that end a verdict before it is executed: a failed job, a result without root or with
      tallies that do not give it, a quorum whose share does not. */
  predicate Disturbs(w: World, step: Step, verdict: Status) {
    !w.p.executed &&
    match step
    case Cancel(job) => job in w.jobs
    case Fulfil(job, r) =>
      job in w.jobs && (r.toReward == [] || !Gives(r.forVotes, r.againstVotes, Share(w.p, w.quorum), verdict))
    case SetQuorum(quorum) => !Gives(w.p.forVotes, w.p.againstVotes, Share(w.p, quorum), verdict)
    case _ => false
  }

  /** The proposal still has the verdict, or was executed on it. */
  predicate HasVerdict(w: World, verdict: Status) {
    w.Status() == Some(verdict) || (verdict == Succeeded && w.p.executed)
  }

  lemma StepKeepsVerdictIff(w: World, step: Step, verdict: Status)
    requires verdict in {Succeeded, Defeated} && HasVerdict(w, verdict)
    ensures HasVerdict(Next(w, step), verdict) <==> !Disturbs(w, step, verdict)
  {
  }

  lemma {:induction false} VerdictStandsTo(w: World, steps: seq<Step>, verdict: Status, n: nat)
    requires verdict in {Succeeded, Defeated} && w.Status() == Some(verdict) && n <= |steps|
    requires forall i :: 0 <= i < n ==> !Disturbs(At(w, steps, i), steps[i], verdict)
    ensures HasVerdict(At(w, steps, n), verdict)
  {
    if n > 0 {
      VerdictStandsTo(w, steps, verdict, n - 1);
      AtNext(w, steps, n - 1);
      StepKeepsVerdictIff(At(w, steps, n - 1), steps[n - 1], verdict);
    }
  }

  lemma VerdictFallsAt(w: World, steps: seq<Step>, verdict: Status, i: nat)
    requires verdict in {Succeeded, Defeated} && i < |steps|
    requires HasVerdict(At(w, steps, i), verdict) && HasVerdict(At(w, steps, i + 1), verdict)
    ensures !Disturbs(At(w, steps, i), steps[i], verdict)
  {
    AtNext(w, steps, i);
    StepKeepsVerdictIff(At(w, steps, i), steps[i], verdict);
  }

  /** Over any run a decided proposal keeps its verdict all along, and only executes on it, if and only
      if none of those steps occurs. */
  lemma VerdictStandsIff(w: World, steps: seq<Step>, verdict: Status)
    requires verdict in {Succeeded, Defeated} && w.Status() == Some(verdict)
    ensures (forall i :: 0 <= i <= |steps| ==> HasVerdict(At(w, steps, i), verdict))
       <==> (forall i :: 0 <= i < |steps| ==> !Disturbs(At(w, steps, i), steps[i], verdict))
  {
    if forall i :: 0 <= i <= |steps| ==> HasVerdict(At(w, steps, i), verdict) {
      forall i | 0 <= i < |steps|
        ensures !Disturbs(At(w, steps, i), steps[i], verdict)
      {
        VerdictFallsAt(w, steps, verdict, i);
      }
    }
    if forall i :: 0 <= i < |steps| ==> !Disturbs(At(w, steps, i), steps[i], verdict) {
      forall i | 0 <= i <= |steps|
        ensures HasVerdict(At(w, steps, i), verdict)
      {
        VerdictStandsTo(w, steps, verdict, i);
      }
    }
  }

  /** A second result can overturn the first: nothing in the contract refuses it. */
  lemma SecondResultOverturns(w: World, job: nat, r: Report)
    requires w.Status() == Some(Succeeded) && job in w.jobs
    requires r.toReward != [] && r.forVotes <= r.againstVotes
    ensures Next(w, Fulfil(job, r)).Status() == Some(Defeated)
    ensures !(forall i :: 0 <= i <= 1 ==> HasVerdict(At(w, [Fulfil(job, r)], i), Succeeded))
  {
    AtNext(w, [Fulfil(job, r)], 0);
    assert [Fulfil(job, r)][..0] == [];
    assert !HasVerdict(At(w, [Fulfil(job, r)], 1), Succeeded);
  }

  // ---- Claims against one list ----

  function RunFrom(root: seq<Entry>, l: Ledger, attempts: seq<Attempt>): Ledger {
    if attempts == [] then l
    else
      var n := |attempts| - 1;
      AfterClaim(root, RunFrom(root, l, attempts[..n]), attempts[n])
  }

  function RunClaims(root: seq<Entry>, attempts: seq<Attempt>): Ledger {
    RunFrom(root, NOTHING_PAID, attempts)
  }

  /** No account was paid twice, exactly the paid ones are marked, and every payment was allowed. */
  ghost predicate LedgerInv(allowed: set<Entry>, l: Ledger) {
    && DistinctEntries(l.events)
    && (forall e :: e in l.events ==> e in allowed)
    && forall a :: a in l.claimed <==> exists i :: 0 <= i < |l.events| && l.events[i].account == a
  }

  lemma ProvenIsListed(root: seq<Entry>, a: Attempt)
    requires ProofHolds(root, a)
    ensures Entry(a.sender, a.amount) in root && Entry(a.sender, a.amount) in Elements(root)
  {
    assert a.list[a.leaf] in multiset(a.list);
  }

  lemma ClaimKeepsInv(allowed: set<Entry>, root: seq<Entry>, l: Ledger, a: Attempt)
    requires LedgerInv(allowed, l) && Elements(root) <= allowed
    ensures LedgerInv(allowed, AfterClaim(root, l, a))
  {
    var m := AfterClaim(root, l, a);
    if m != l {
      ProvenIsListed(root, a);
      assert m.events[|l.events|].account == a.sender;
      forall b | b in l.claimed
        ensures exists i :: 0 <= i < |m.events| && m.events[i].account == b
      {
        var i :| 0 <= i < |l.events| && l.events[i].account == b;
        assert m.events[i].account == b;
      }
    }
  }

  lemma {:induction false} ClaimsKeepInv(allowed: set<Entry>, root: seq<Entry>, l: Ledger, attempts: seq<Attempt>)
    requires LedgerInv(allowed, l) && Elements(root) <= allowed
    ensures LedgerInv(allowed, RunFrom(root, l, attempts))
  {
    if attempts != [] {
      var n := |attempts| - 1;
      ClaimsKeepInv(allowed, root, l, attempts[..n]);
      ClaimKeepsInv(allowed, root, RunFrom(root, l, attempts[..n]), attempts[n]);
    }
  }

  /** What a list has for an account. */
  function AmountIn(es: seq<Entry>, a: Address): nat {
    if es == [] then 0
    else
      var n := |es| - 1;
      AmountIn(es[..n], a) + if es[n].account == a then es[n].amount else 0
  }

  /** The list without the entries of an account. */
  function Drop(es: seq<Entry>, a: Address): seq<Entry> {
    if es == [] then []
    else
      var n := |es| - 1;
      Drop(es[..n], a) + if es[n].account == a then [] else [es[n]]
  }

  lemma {:induction false} DropTakesAmount(es: seq<Entry>, a: Address)
    ensures Paid(Drop(es, a)) + AmountIn(es, a) == Paid(es)
  {
    if es != [] {
      var n := |es| - 1;
      DropTakesAmount(es[..n], a);
      PaidOneMore(Drop(es[..n], a), es[n]);
      assert Drop(es[..n], a) + [] == Drop(es[..n], a);
    }
  }

  lemma AmountOfOneMore(es: seq<Entry>, e: Entry, a: Address)
    ensures AmountIn(es + [e], a) == AmountIn(es, a) + if e.account == a then e.amount else 0
  {
    assert (es + [e])[..|es|] == es;
  }

  lemma {:induction false} DropKeepsOthers(es: seq<Entry>, a: Address, b: Address)
    requires a != b
    ensures AmountIn(Drop(es, a), b) == AmountIn(es, b)
  {
    if es != [] {
      var n := |es| - 1;
      DropKeepsOthers(es[..n], a, b);
      AmountOfOneMore(Drop(es[..n], a), es[n], b);
      assert Drop(es[..n], a) + [] == Drop(es[..n], a);
    }
  }

  lemma {:induction false} EntryWithinAmount(es: seq<Entry>, e: Entry)
    requires e in es
    ensures e.amount <= AmountIn(es, e.account)
  {
    var n := |es| - 1;
    if es[n] != e {
      assert e in es[..n];
      EntryWithinAmount(es[..n], e);
    }
  }

  /** Payments to different accounts, none above what a list has for its account, are worth at most
      the list. */
  lemma {:induction false} PaidWithin(part: seq<Entry>, whole: seq<Entry>)
    requires DistinctEntries(part) && forall e :: e in part ==> e.amount <= AmountIn(whole, e.account)
    ensures Paid(part) <= Paid(whole)
  {
    if part != [] {
      var n := |part| - 1;
      var rest := Drop(whole, part[n].account);
      DropTakesAmount(whole, part[n].account);
      assert part[n] in part;
      forall e | e in part[..n]
        ensures e.amount <= AmountIn(rest, e.account)
      {
        assert e in part;
        DropKeepsOthers(whole, part[n].account, e.account);
      }
      PaidWithin(part[..n], rest);
    }
  }

  /** However claims are sent while a list stands, no account is paid twice, every payment is an entry of
      the list, and the total minted never exceeds what the list pays. */
  lemma ClaimsNeverOverpay(root: seq<Entry>, attempts: seq<Attempt>)
    ensures var l := RunClaims(root, attempts);
      DistinctEntries(l.events) && (forall e :: e in l.events ==> e in root) && Paid(l.events) <= Paid(root)
  {
    var l := RunClaims(root, attempts);
    ClaimsKeepInv(Elements(root), root, NOTHING_PAID, attempts);
    forall e | e in l.events
      ensures e in root && e.amount <= AmountIn(root, e.account)
    {
      EntryWithinAmount(root, e);
    }
    PaidWithin(l.events, root);
  }

  /** With one entry per account an entry has been paid exactly when a claim with its proof was
      sent: nobody can claim for another and nobody's claim is blocked. */
  lemma {:induction false} PaidIffClaimed(root: seq<Entry>, attempts: seq<Attempt>, e: Entry)
    requires DistinctEntries(root)
    ensures e in RunClaims(root, attempts).events <==>
      exists a :: a in attempts && ProofHolds(root, a) && e == Entry(a.sender, a.amount)
  {
    if attempts != [] {
      var n := |attempts| - 1;
      var l, a := RunClaims(root, attempts[..n]), attempts[n];
      PaidIffClaimed(root, attempts[..n], e);
      ClaimsKeepInv(Elements(root), root, NOTHING_PAID, attempts[..n]);
      assert attempts == attempts[..n] + [a];
      if ProofHolds(root, a) && a.sender in l.claimed {
        var i :| 0 <= i < |l.events| && l.events[i].account == a.sender;
        assert l.events[i] in Elements(root);
        ProvenIsListed(root, a);
        assert l.events[i] == Entry(a.sender, a.amount);
      }
    }
  }

  /** The rewards minted for a proposal while the job's list stands, over every run of claims, stay
      within the emission on the winners' holdings at the time of the job. */
  lemma MintedWithinEmission(chain: Chain, cs: seq<Counted>, attempts: seq<Attempt>)
    ensures var d := Decide(chain, cs);
      var minted := Paid(RunClaims(ToReward(chain, cs), attempts).events);
      minted <= if d.consensus then ExactEmission(chain, Winners(cs, d.majority)) else 0
  {
    ClaimsNeverOverpay(ToReward(chain, cs), attempts);
    if Decide(chain, cs).consensus {
      EmissionBound(chain, cs);
    } else {
      TreeNeverEmpty(chain, cs);
      PaidOneMore([], Entry(ADDRESS_ZERO, 0));
      assert [] + [Entry(ADDRESS_ZERO, 0)] == [Entry(ADDRESS_ZERO, 0)];
    }
  }

  // ---- Claims while the list is replaced ----

  datatype Act = Redeliver(root: seq<Entry>) | Try(attempt: Attempt)

  datatype Pot = Pot(root: seq<Entry>, ledger: Ledger)

  function RunActs(acts: seq<Act>): Pot {
    if acts == [] then Pot([], NOTHING_PAID)
    else
      var pot := RunActs(acts[..|acts| - 1]);
      match acts[|acts| - 1]
      case Redeliver(root) => pot.(root := root)
      case Try(a) => pot.(ledger := AfterClaim(pot.root, pot.ledger, a))
  }

  /** The payment was made by a claim of the run, and was in the list that stood then. */
  predicate PaidInRun(acts: seq<Act>, e: Entry) {
    exists i :: 0 <= i < |acts| && acts[i].Try? && ProofHolds(RunActs(acts[..i]).root, acts[i].attempt)
      && e == Entry(acts[i].attempt.sender, acts[i].attempt.amount)
  }

  lemma PaidInLongerRun(acts: seq<Act>, n: nat, e: Entry)
    requires n <= |acts| && PaidInRun(acts[..n], e)
    ensures PaidInRun(acts, e)
  {
    var i :| 0 <= i < n && acts[..n][i].Try? && ProofHolds(RunActs(acts[..n][..i]).root, acts[..n][i].attempt)
      && e == Entry(acts[..n][i].attempt.sender, acts[..n][i].attempt.amount);
    assert acts[..n][..i] == acts[..i] && acts[..n][i] == acts[i];
  }

  /** However results are delivered, again and again, between claims: no account is paid twice, and every
      payment was listed when it was made. */
  lemma {:induction false} RedeliveryPaysOnce(acts: seq<Act>)
    ensures var l := RunActs(acts).ledger;
      && LedgerInv(Elements(l.events), l)
      && forall e :: e in l.events ==> PaidInRun(acts, e)
  {
    if acts != [] {
      var n := |acts| - 1;
      var pot, l := RunActs(acts[..n]), RunActs(acts).ledger;
      RedeliveryPaysOnce(acts[..n]);
      forall e | e in pot.ledger.events
        ensures PaidInRun(acts, e)
      {
        PaidInLongerRun(acts, n, e);
      }
      if acts[n].Try? && l != pot.ledger {
        var a := acts[n].attempt;
        ClaimKeepsInv(Elements(pot.ledger.events) + Elements(pot.root), pot.root, pot.ledger, a);
        assert acts[..n] == acts[..|acts| - 1] && ProofHolds(RunActs(acts[..n]).root, acts[n].attempt);
        assert PaidInRun(acts, Entry(a.sender, a.amount));
      }
    }
  }

  // ---- The most that can be minted ----

  /** The lists a run delivers, in order. */
  function Roots(acts: seq<Act>): seq<seq<Entry>> {
    if acts == [] then []
    else
      var n := |acts| - 1;
      Roots(acts[..n]) + if acts[n].Redeliver? then [acts[n].root] else []
  }

  lemma RootsOneMore(acts: seq<Act>, act: Act)
    ensures Roots(acts + [act]) == if act.Redeliver? then Roots(acts) + [act.root] else Roots(acts)
  {
    assert (acts + [act])[..|acts|] == acts;
    assert Roots(acts) + [] == Roots(acts);
  }

  lemma RunOneMore(acts: seq<Act>, act: Act)
    ensures RunActs(acts + [act]) ==
      match act
      case Redeliver(root) => Pot(root, RunActs(acts).ledger)
      case Try(a) => Pot(RunActs(acts).root, AfterClaim(RunActs(acts).root, RunActs(acts).ledger, a))
  {
    assert (acts + [act])[..|acts|] == acts;
  }

  /** The list that stands after the delivered ones. */
  function LastRoot(roots: seq<seq<Entry>>): seq<Entry> {
    if roots == [] then [] else roots[|roots| - 1]
  }

  lemma {:induction false} LastRootStands(acts: seq<Act>)
    ensures RunActs(acts).root == LastRoot(Roots(acts))
  {
    if acts != [] {
      var n := |acts| - 1;
      LastRootStands(acts[..n]);
      RootsOneMore(acts[..n], acts[n]);
      assert acts == acts[..n] + [acts[n]];
    }
  }

  predicate Listed(roots: seq<seq<Entry>>, e: Entry) {
    exists k :: 0 <= k < |roots| && e in roots[k]
  }

  lemma ListedOneMore(roots: seq<seq<Entry>>, root: seq<Entry>, e: Entry)
    ensures Listed(roots + [root], e) <==> Listed(roots, e) || e in root
  {
    var all := roots + [root];
    assert all[|roots|] == root && forall k :: 0 <= k < |roots| ==> all[k] == roots[k];
  }

  /** Every payment of a run was in one of the delivered lists. */
  lemma {:induction false} PaidWasListed(acts: seq<Act>, e: Entry)
    requires e in RunActs(acts).ledger.events
    ensures Listed(Roots(acts), e)
  {
    var n := |acts| - 1;
    var pot := RunActs(acts[..n]);
    assert acts == acts[..n] + [acts[n]];
    RootsOneMore(acts[..n], acts[n]);
    if e in pot.ledger.events {
      PaidWasListed(acts[..n], e);
      if acts[n].Redeliver? {
        ListedOneMore(Roots(acts[..n]), acts[n].root, e);
      }
    } else {
      LastRootStands(acts[..n]);
      ProvenIsListed(pot.root, acts[n].attempt);
      assert e in pot.root;
    }
  }

  function Raised(m: map<Address, nat>, es: seq<Entry>): map<Address, nat> {
    if es == [] then m
    else
      var n := |es| - 1;
      var before, e := Raised(m, es[..n]), es[n];
      if e.account in before && before[e.account] >= e.amount then before else before[e.account := e.amount]
  }

  /** Per account the largest amount that any of the lists has for it. */
  function Ceiling(roots: seq<seq<Entry>>): map<Address, nat> {
    if roots == [] then map[]
    else
      var n := |roots| - 1;
      Raised(Ceiling(roots[..n]), roots[n])
  }

  predicate Within(m: map<Address, nat>, e: Entry) {
    e.account in m && e.amount <= m[e.account]
  }

  lemma {:induction false} RaisedIsMax(m: map<Address, nat>, es: seq<Entry>)
    ensures var r := Raised(m, es);
      && (forall e :: e in es || Within(m, e) ==> Within(r, e))
      && (forall a :: a in r ==> Entry(a, r[a]) in es || (a in m && m[a] == r[a]))
  {
    if es != [] {
      var n := |es| - 1;
      RaisedIsMax(m, es[..n]);
      assert es == es[..n] + [es[n]];
    }
  }

  /** The ceiling is the maximum: no delivered entry exceeds it, and each of its amounts is an entry. */
  lemma {:induction false} CeilingIsMax(roots: seq<seq<Entry>>)
    ensures forall e :: Listed(roots, e) ==> Within(Ceiling(roots), e)
    ensures forall a :: a in Ceiling(roots) ==> Listed(roots, Entry(a, Ceiling(roots)[a]))
  {
    if roots != [] {
      var n := |roots| - 1;
      CeilingIsMax(roots[..n]);
      RaisedIsMax(Ceiling(roots[..n]), roots[n]);
      assert roots == roots[..n] + [roots[n]];
      forall e
        ensures Listed(roots, e) <==> Listed(roots[..n], e) || e in roots[n]
      {
        ListedOneMore(roots[..n], roots[n], e);
      }
    }
  }

  /** Payments to different accounts within a map are worth at most its total, and less if the map has
      more for some account. */
  lemma {:induction false} PaidWithinTotal(es: seq<Entry>, m: map<Address, nat>, a: Address)
    requires DistinctEntries(es) && forall e :: e in es ==> Within(m, e)
    ensures Paid(es) <= Total(m)
    ensures a in m && m[a] > AmountIn(es, a) ==> Paid(es) < Total(m)
  {
    if es == [] {
      if a in m {
        TotalWithout(m, a);
      }
    } else {
      var n := |es| - 1;
      var e := es[n];
      assert e in es;
      forall f | f in es[..n]
        ensures Within(m - {e.account}, f)
      {
        assert f in es;
      }
      TotalWithout(m, e.account);
      PaidWithinTotal(es[..n], m - {e.account}, a);
    }
  }

  /** Every payment is of exactly what the map has for its account, and each account of the map has one. */
  predicate PaysOut(es: seq<Entry>, m: map<Address, nat>) {
    && DistinctEntries(es)
    && (forall i :: 0 <= i < |es| ==> es[i].account in m && m[es[i].account] == es[i].amount)
    && forall a :: a in m ==> exists i :: 0 <= i < |es| && es[i].account == a
  }

  lemma PaysOutRest(es: seq<Entry>, m: map<Address, nat>)
    requires es != [] && PaysOut(es, m)
    ensures PaysOut(es[..|es| - 1], m - {es[|es| - 1].account})
  {
    var n, rest := |es| - 1, m - {es[|es| - 1].account};
    forall a | a in rest
      ensures exists i :: 0 <= i < n && es[..n][i].account == a
    {
      var i :| 0 <= i < |es| && es[i].account == a;
      assert es[..n][i].account == a;
    }
  }

  /** Such payments are worth the map's total. */
  lemma {:induction false} PaidIsTotal(es: seq<Entry>, m: map<Address, nat>)
    requires PaysOut(es, m)
    ensures Paid(es) == Total(m)
  {
    if es == [] {
      assert m == map[];
    } else {
      var n := |es| - 1;
      TotalWithout(m, es[n].account);
      PaysOutRest(es, m);
      PaidIsTotal(es[..n], m - {es[n].account});
    }
  }

  /** Every payment was of exactly the amount in `m`. */
  predicate OnlyTop(m: map<Address, nat>, l: Ledger) {
    forall e :: e in l.events ==> e.account in m && m[e.account] == e.amount
  }

  /** The accounts of the entries with the amount in `m` have claimed. */
  predicate TopClaimed(m: map<Address, nat>, es: seq<Entry>, claimed: set<Address>) {
    forall e :: e in es && e.account in m && m[e.account] == e.amount ==> e.account in claimed
  }

  /** From a run in which a list stands, claims for its first `n` entries that have the amount in `m`. */
  lemma {:induction false} ClaimTop(acts: seq<Act>, m: map<Address, nat>, n: nat) returns (longer: seq<Act>)
    requires n <= |RunActs(acts).root| && OnlyTop(m, RunActs(acts).ledger)
    ensures var before, after := RunActs(acts), RunActs(longer);
      && after.root == before.root && Roots(longer) == Roots(acts)
      && OnlyTop(m, after.ledger) && before.ledger.claimed <= after.ledger.claimed
      && TopClaimed(m, before.root[..n], after.ledger.claimed)
  {
    if n == 0 {
      longer := acts;
    } else {
      var root := RunActs(acts).root;
      longer := ClaimTop(acts, m, n - 1);
      var e := root[n - 1];
      assert root[..n] == root[..n - 1] + [e];
      if e.account in m && m[e.account] == e.amount {
        var try := Try(Attempt(e.account, e.amount, root, n - 1));
        RunOneMore(longer, try);
        RootsOneMore(longer, try);
        longer := longer + [try];
      }
    }
  }

  /** Every sequence of lists has a schedule that claims each entry with the amount in `m` while it
      stands, and nothing else. */
  lemma {:induction false} Schedule(roots: seq<seq<Entry>>, m: map<Address, nat>) returns (acts: seq<Act>)
    ensures Roots(acts) == roots && OnlyTop(m, RunActs(acts).ledger)
    ensures forall k :: 0 <= k < |roots| ==> TopClaimed(m, roots[k], RunActs(acts).ledger.claimed)
  {
    if roots == [] {
      acts := [];
    } else {
      var n := |roots| - 1;
      var before := Schedule(roots[..n], m);
      var next := Redeliver(roots[n]);
      RunOneMore(before, next);
      RootsOneMore(before, next);
      acts := ClaimTop(before + [next], m, |roots[n]|);
      assert roots == roots[..n] + [roots[n]] && roots[n][..|roots[n]|] == roots[n];
      forall k | 0 <= k < |roots|
        ensures TopClaimed(m, roots[k], RunActs(acts).ledger.claimed)
      {
        assert k < n ==> TopClaimed(m, roots[..n][k], RunActs(before).ledger.claimed);
      }
    }
  }

  lemma MintedWithinCeiling(acts: seq<Act>)
    ensures Paid(RunActs(acts).ledger.events) <= Total(Ceiling(Roots(acts)))
  {
    var l, top := RunActs(acts).ledger, Ceiling(Roots(acts));
    RedeliveryPaysOnce(acts);
    CeilingIsMax(Roots(acts));
    forall e | e in l.events
      ensures Within(top, e)
    {
      PaidWasListed(acts, e);
    }
    PaidWithinTotal(l.events, top, ADDRESS_ZERO);
  }

  lemma CeilingIsReached(roots: seq<seq<Entry>>) returns (acts: seq<Act>)
    ensures Roots(acts) == roots && Paid(RunActs(acts).ledger.events) == Total(Ceiling(roots))
  {
    var top := Ceiling(roots);
    CeilingIsMax(roots);
    acts := Schedule(roots, top);
    var l := RunActs(acts).ledger;
    RedeliveryPaysOnce(acts);
    forall a | a in top
      ensures exists i :: 0 <= i < |l.events| && l.events[i].account == a
    {
      var k :| 0 <= k < |roots| && Entry(a, top[a]) in roots[k];
      assert TopClaimed(top, roots[k], l.claimed);
      assert a in l.claimed;
    }
    PaidIsTotal(l.events, top);
  }

  /** However many results are delivered, the most that claims between them can mint is, summed over the
      accounts, the largest amount any of the lists has for the account: no schedule mints more, and
      some schedule mints that much. */
  lemma MostMinted(roots: seq<seq<Entry>>)
    ensures forall acts :: Roots(acts) == roots ==> Paid(RunActs(acts).ledger.events) <= Total(Ceiling(roots))
    ensures exists acts :: Roots(acts) == roots && Paid(RunActs(acts).ledger.events) == Total(Ceiling(roots))
  {
    forall acts | Roots(acts) == roots
      ensures Paid(RunActs(acts).ledger.events) <= Total(Ceiling(roots))
    {
      MintedWithinCeiling(acts);
    }
    var acts := CeilingIsReached(roots);
  }

  /** If the last list cuts an entry of an earlier one, some schedule of claims mints more than it pays. */
  lemma OverpaidAfterCut(roots: seq<seq<Entry>>, e: Entry)
    requires DistinctEntries(LastRoot(roots)) && Listed(roots, e) && e.amount > AmountIn(LastRoot(roots), e.account)
    ensures exists acts :: Roots(acts) == roots && Paid(RunActs(acts).ledger.events) > Paid(LastRoot(roots))
  {
    var last := LastRoot(roots);
    CeilingIsMax(roots);
    assert Within(Ceiling(roots), e);
    forall f | f in last
      ensures Within(Ceiling(roots), f)
    {
      assert Listed(roots, f);
    }
    PaidWithinTotal(last, Ceiling(roots), e.account);
    var acts := CeilingIsReached(roots);
  }

  /** The total minted over every schedule of claims between any number of results stays within the last
      list if and only if that list cuts no entry of an earlier one; in particular when all are the
      same. */
  lemma RedeliveryKeepsBoundIff(roots: seq<seq<Entry>>)
    requires DistinctEntries(LastRoot(roots))
    ensures (forall acts :: Roots(acts) == roots ==> Paid(RunActs(acts).ledger.events) <= Paid(LastRoot(roots)))
       <==> (forall e :: Listed(roots, e) ==> e.amount <= AmountIn(LastRoot(roots), e.account))
  {
    if e: Entry :| Listed(roots, e) && e.amount > AmountIn(LastRoot(roots), e.account) {
      OverpaidAfterCut(roots, e);
      var acts :| Roots(acts) == roots && Paid(RunActs(acts).ledger.events) > Paid(LastRoot(roots));
    } else {
      forall acts | Roots(acts) == roots
        ensures Paid(RunActs(acts).ledger.events) <= Paid(LastRoot(roots))
      {
        var l := RunActs(acts).ledger;
        RedeliveryPaysOnce(acts);
        forall e | e in l.events
          ensures e.amount <= AmountIn(LastRoot(roots), e.account)
        {
          PaidWasListed(acts, e);
        }
        PaidWithin(l.events, LastRoot(roots));
      }
    }
  }
}
