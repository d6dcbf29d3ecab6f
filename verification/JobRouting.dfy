/**
 Where a job's result goes. The job returns its result under the job number that it read in the stored list
 when it began. A refresh writes the number only while the proposal's creation event is in its window, and
 a save overwrites what other refreshes stored; the contract gives the number out when a resolution is
 requested.
 */
module JobRouting {
  import opened Common
  import opened RewardLookup
  import opened ProposalStore
  import opened ProposalRefresh
  import opened RefreshOrigins
  import Governor
  import Tally

  // ---- The stored job number ----

  /** The job number of the first record of a proposal. */
  function JobIdOf(ps: seq<Proposal>, id: string): Option<nat> {
    if ps == [] then None
    else
      var n := |ps| - 1;
      var before := JobIdOf(ps[..n], id);
      if before.Some? then before else if ps[n].id == id then Some(ps[n].jobId) else None
  }

  lemma {:induction false} JobIdIs(ps: seq<Proposal>, id: string)
    requires DistinctIds(ps)
    ensures JobIdOf(ps, id).Some? <==> id in Ids(ps)
    ensures forall p :: p in ps && p.id == id ==> JobIdOf(ps, id) == Some(p.jobId)
  {
    if ps != [] {
      var n := |ps| - 1;
      JobIdIs(ps[..n], id);
      IdsOfOneMore(ps[..n], ps[n]);
      assert ps == ps[..n] + [ps[n]];
    }
  }

  /** It is the number of the record that stands first. */
  lemma {:induction false} JobIdIsFirst(ps: seq<Proposal>, id: string, k: nat)
    requires k < |ps| && ps[k].id == id && forall j :: 0 <= j < k ==> ps[j].id != id
    ensures JobIdOf(ps, id) == Some(ps[k].jobId)
  {
    var n := |ps| - 1;
    if k < n {
      JobIdIsFirst(ps[..n], id, k);
    } else {
      NoJobId(ps[..n], id);
    }
  }

  lemma {:induction false} NoJobId(ps: seq<Proposal>, id: string)
    requires forall j :: 0 <= j < |ps| ==> ps[j].id != id
    ensures JobIdOf(ps, id) == None
  {
    if ps != [] {
      NoJobId(ps[..|ps| - 1], id);
    }
  }

  lemma RefreshedStoresRightRecords(view: View, prior: seq<Proposal>, events: seq<Created>, head: int)
    requires Refreshed(view, prior, events, head).Some?
    ensures forall p :: p in Refreshed(view, prior, events, head).value ==> RightRecord(view, prior, events, p)
  {
    MergeStoresRightRecords(view, prior, events);
  }

  lemma FreshJobId(view: View, e: Created)
    requires FreshRecord(view, e).Some?
    ensures view.core(e.id).Some? && FreshRecord(view, e).value.jobId == view.core(e.id).value.bridgeId
  {
  }

  lemma RightJobId(view: View, prior: seq<Proposal>, events: seq<Created>, p: Proposal)
    requires DistinctIds(prior) && RightRecord(view, prior, events, p)
    ensures if p.id in EventIds(events)
            then view.core(p.id).Some? && p.jobId == view.core(p.id).value.bridgeId
            else JobIdOf(prior, p.id) == Some(p.jobId)
  {
    if p.id in EventIds(events) {
      var e :| e in events && IsFirst(events, e) && FreshRecord(view, e) == Some(p);
      FreshRecordId(view, e);
      FreshJobId(view, e);
    } else {
      JobIdIs(prior, p.id);
    }
  }

  /** A refresh that goes through stores the contract's job number for a proposal whose creation event
      it read, and leaves every other job number as it was. */
  lemma RefreshedJobId(view: View, prior: seq<Proposal>, events: seq<Created>, head: int, id: string, stored: seq<Proposal>)
    requires DistinctIds(prior) && Refreshed(view, prior, events, head) == Some(stored)
    ensures
      && DistinctIds(stored)
      && if id in EventIds(events)
         then view.core(id).Some? && JobIdOf(stored, id) == Some(view.core(id).value.bridgeId)
         else JobIdOf(stored, id) == JobIdOf(prior, id)
  {
    RefreshedIsUnion(view, prior, events, head);
    RefreshedStoresRightRecords(view, prior, events, head);
    JobIdIs(stored, id);
    JobIdIs(prior, id);
    if id in Ids(stored) {
      var k :| 0 <= k < |stored| && stored[k].id == id;
      RightJobId(view, prior, events, stored[k]);
    }
  }

  /** What a refresh leaves as the job number of a proposal. */
  predicate LeavesJobId(log: seq<Created>, prior: seq<Proposal>, r: Refresh, id: string, stored: seq<Proposal>) {
    && DistinctIds(stored)
    && if id in WindowIds(log, r.head, r.tip)
       then r.view.core(id).Some? && JobIdOf(stored, id) == Some(r.view.core(id).value.bridgeId)
       else JobIdOf(stored, id) == JobIdOf(prior, id)
  }

  lemma StoredJobId(log: seq<Created>, prior: seq<Proposal>, r: Refresh, id: string, seen: seq<Created>, stored: seq<Proposal>)
    requires DistinctIds(prior) && seen == Visible(log, r.head - LOOK_BACK, r.tip)
    requires Refreshed(r.view, prior, seen, r.head) == Some(stored)
    ensures LeavesJobId(log, prior, r, id, stored)
  {
    assert WindowIds(log, r.head, r.tip) == EventIds(seen);
    RefreshedJobId(r.view, prior, seen, r.head, id, stored);
  }

  lemma AfterRefreshJobId(log: seq<Created>, prior: seq<Proposal>, r: Refresh, id: string)
    requires DistinctIds(prior) && AfterRefresh(log, prior, r).Some?
    ensures LeavesJobId(log, prior, r, id, AfterRefresh(log, prior, r).value)
  {
    StoredJobId(log, prior, r, id, Visible(log, r.head - LOOK_BACK, r.tip), AfterRefresh(log, prior, r).value);
  }

  // ---- Where a stored job number comes from ----

  /** The refresh has the creation event in its window, and is told a job number. */
  predicate Writes(log: seq<Created>, id: string, r: Refresh) {
    id in WindowIds(log, r.head, r.tip) && r.view.core(id).Some?
  }

  /** The job number that the latest writing refresh of a chain found, or the initial one. */
  function LastFound(log: seq<Created>, id: string, initial: seq<Proposal>, chain: seq<Refresh>): Option<nat> {
    if chain == [] then JobIdOf(initial, id)
    else
      var n := |chain| - 1;
      if Writes(log, id, chain[n]) then Some(chain[n].view.core(id).value.bridgeId)
      else LastFound(log, id, initial, chain[..n])
  }

  lemma GoesThroughPrefix(log: seq<Created>, initial: seq<Proposal>, chain: seq<Refresh>)
    requires chain != [] && GoesThrough(log, initial, chain)
    ensures var n := |chain| - 1;
      GoesThrough(log, initial, chain[..n]) && AfterRefresh(log, Serial(log, initial, chain[..n]), chain[n]).Some?
  {
    var n := |chain| - 1;
    SuccessesNoLonger(log, initial, chain[..n]);
    assert chain == chain[..n] + [chain[n]];
  }

  lemma {:induction false} SuccessesNoLonger(log: seq<Created>, initial: seq<Proposal>, chain: seq<Refresh>)
    ensures |Successes(log, initial, chain)| <= |chain|
  {
    if chain != [] {
      SuccessesNoLonger(log, initial, chain[..|chain| - 1]);
    }
  }

  lemma {:induction false} SerialJobId(log: seq<Created>, id: string, initial: seq<Proposal>, chain: seq<Refresh>)
    requires DistinctIds(initial) && GoesThrough(log, initial, chain)
    ensures DistinctIds(Serial(log, initial, chain))
    ensures JobIdOf(Serial(log, initial, chain), id) == LastFound(log, id, initial, chain)
  {
    if chain != [] {
      var n := |chain| - 1;
      GoesThroughPrefix(log, initial, chain);
      SerialJobId(log, id, initial, chain[..n]);
      AfterRefreshJobId(log, Serial(log, initial, chain[..n]), chain[n], id);
    }
  }

  /** After any interleaving of refreshes the stored job number is the one that the latest refresh on the
      chain of the store found with the creation event in its window, or the initial one. */
  lemma StoredJobIdIs(log: seq<Created>, id: string, start: State, events: seq<Event>)
    requires AllIdle(start) && DistinctIds(start.store)
    ensures JobIdOf(Run(log, start, events).store, id) == LastFound(log, id, start.store, Chain(log, start, events))
  {
    InterleavedStoreIsSerial(log, start, events);
    RunGoesThrough(log, start, events);
    SerialJobId(log, id, start.store, Chain(log, start, events));
  }

  // ---- Refreshes, the contract and the jobs ----

  /** The refreshes, the contract's view of the proposal that is followed, and the job number each run of
      the job has read. */
  datatype Site = Site(refreshes: State, w: Governor.World, read: map<nat, Option<nat>>)

  /** A step of a refresh, a step of the contract, or a run of the job, which first reads the job number
      from the stored list and later returns its result. */
  datatype Move = Renew(e: Event) | OnChain(step: Governor.Step) | Read(run: nat) | Return(run: nat, report: Tally.Report)

  function Moved(log: seq<Created>, id: string, s: Site, m: Move): Site {
    match m
    case Renew(e) => s.(refreshes := Step(log, s.refreshes, e))
    case OnChain(step) => s.(w := Governor.Next(s.w, step))
    case Read(run) => s.(read := s.read[run := JobIdOf(s.refreshes.store, id)])
    case Return(run, report) =>
      if run in s.read && s.read[run].Some?
      then s.(w := Governor.Next(s.w, Governor.Fulfil(s.read[run].value, report))) else s
  }

  function Moves(log: seq<Created>, id: string, start: Site, ms: seq<Move>): Site {
    if ms == [] then start
    else Moved(log, id, Moves(log, id, start, ms[..|ms| - 1]), ms[|ms| - 1])
  }

  /** The site before the `i`-th move. */
  function Before(log: seq<Created>, id: string, start: Site, ms: seq<Move>, i: nat): Site
    requires i <= |ms|
  {
    Moves(log, id, start, ms[..i])
  }

  /** The steps of refreshes among the moves. */
  function Renewals(ms: seq<Move>): seq<Event> {
    if ms == [] then []
    else
      var n := |ms| - 1;
      Renewals(ms[..n]) + if ms[n].Renew? then [ms[n].e] else []
  }

  lemma RenewalsLast(ms: seq<Move>)
    requires ms != []
    ensures var n := |ms| - 1;
      Renewals(ms) == if ms[n].Renew? then Renewals(ms[..n]) + [ms[n].e] else Renewals(ms[..n])
  {
    assert Renewals(ms[..|ms| - 1]) + [] == Renewals(ms[..|ms| - 1]);
  }

  lemma {:induction false} RefreshesRun(log: seq<Created>, id: string, start: Site, ms: seq<Move>)
    ensures Moves(log, id, start, ms).refreshes == Run(log, start.refreshes, Renewals(ms))
  {
    if ms != [] {
      var n := |ms| - 1;
      RefreshesRun(log, id, start, ms[..n]);
      RenewalsLast(ms);
      if ms[n].Renew? {
        OneMoreEvent(log, start.refreshes, Renewals(ms[..n]), ms[n].e);
      }
    }
  }

  /** The refreshes on the chain of the store after some moves. */
  function ChainAfter(log: seq<Created>, start: Site, ms: seq<Move>): seq<Refresh> {
    Chain(log, start.refreshes, Renewals(ms))
  }

  // ---- Every number anywhere is one of the proposal's ----

  /** No job has number zero, and the proposal's current job is one of its jobs. */
  predicate JobsInv(w: Governor.World) {
    0 !in w.jobs && (w.p.bridgeId == 0 || w.p.bridgeId in w.jobs)
  }

  predicate Known(w: Governor.World, number: Option<nat>) {
    number.Some? && number.value != 0 ==> number.value in w.jobs
  }

  predicate KnownList(id: string, w: Governor.World, list: seq<Proposal>) {
    DistinctIds(list) && Known(w, JobIdOf(list, id))
  }

  predicate KnownPhase(id: string, w: Governor.World, p: Phase) {
    p.Idle? || KnownList(id, w, p.list)
  }

  predicate SiteInv(id: string, s: Site) {
    && JobsInv(s.w) && KnownList(id, s.w, s.refreshes.store)
    && (forall c :: 0 <= c < |s.refreshes.phases| ==> KnownPhase(id, s.w, s.refreshes.phases[c]))
    && forall run :: run in s.read ==> Known(s.w, s.read[run])
  }

  /** The job number a refresh is told is the proposal's present or, if the answer is late, a former one. */
  predicate Told(id: string, s: Site, m: Move) {
    m.Renew? && m.e.Query? && m.e.view.core(id).Some? ==>
      var told := m.e.view.core(id).value.bridgeId;
      told == 0 || told in s.w.jobs
  }

  predicate AllTold(log: seq<Created>, id: string, start: Site, ms: seq<Move>) {
    forall i :: 0 <= i < |ms| ==> Told(id, Before(log, id, start, ms, i), ms[i])
  }

  lemma NextKeepsJobs(w: Governor.World, step: Governor.Step)
    requires JobsInv(w)
    ensures JobsInv(Governor.Next(w, step)) && w.jobs <= Governor.Next(w, step).jobs
  {
  }

  lemma QueriedKnown(log: seq<Created>, id: string, w: Governor.World, p: Phase, head: int, tip: int, view: View)
    requires p.Loaded? && KnownList(id, w, p.list)
    requires view.core(id).Some? ==> Known(w, Some(view.core(id).value.bridgeId))
    ensures KnownPhase(id, w, Queried(log, p, head, tip, view))
  {
    var r := Refresh(head, tip, view);
    QueriedIs(log, p, head, tip, view);
    if AfterRefresh(log, p.list, r).Some? {
      AfterRefreshJobId(log, p.list, r, id);
    }
  }

  lemma RenewKeepsInv(log: seq<Created>, id: string, s: Site, e: Event)
    requires SiteInv(id, s) && Told(id, s, Renew(e))
    ensures SiteInv(id, Moved(log, id, s, Renew(e)))
  {
    if e.client < |s.refreshes.phases| {
      var p := s.refreshes.phases[e.client];
      assert KnownPhase(id, s.w, p);
      if e.Query? && p.Loaded? {
        QueriedKnown(log, id, s.w, p, e.head, e.tip, e.view);
      }
      assert KnownPhase(id, s.w, NextPhase(log, s.refreshes, p, e));
    }
  }

  lemma StepKeepsSiteInv(id: string, s: Site, step: Governor.Step)
    requires SiteInv(id, s)
    ensures SiteInv(id, s.(w := Governor.Next(s.w, step)))
  {
    var v := Governor.Next(s.w, step);
    NextKeepsJobs(s.w, step);
    forall c | 0 <= c < |s.refreshes.phases|
      ensures KnownPhase(id, v, s.refreshes.phases[c])
    {
      assert KnownPhase(id, s.w, s.refreshes.phases[c]);
    }
  }

  lemma MovedKeepsInv(log: seq<Created>, id: string, s: Site, m: Move)
    requires SiteInv(id, s) && Told(id, s, m)
    ensures SiteInv(id, Moved(log, id, s, m))
  {
    match m
    case Renew(e) => RenewKeepsInv(log, id, s, e);
    case OnChain(step) => StepKeepsSiteInv(id, s, step);
    case Read(run) =>
    case Return(run, report) =>
      if run in s.read && s.read[run].Some? {
        StepKeepsSiteInv(id, s, Governor.Fulfil(s.read[run].value, report));
      }
  }

  lemma ToldBefore(log: seq<Created>, id: string, start: Site, ms: seq<Move>, n: nat)
    requires n <= |ms| && AllTold(log, id, start, ms)
    ensures AllTold(log, id, start, ms[..n])
  {
    forall i | 0 <= i < n
      ensures Told(id, Before(log, id, start, ms[..n], i), ms[..n][i])
    {
      assert ms[..n][..i] == ms[..i];
      assert Told(id, Before(log, id, start, ms, i), ms[i]);
    }
  }

  lemma {:induction false} MovesKeepInv(log: seq<Created>, id: string, start: Site, ms: seq<Move>)
    requires SiteInv(id, start) && AllTold(log, id, start, ms)
    ensures SiteInv(id, Moves(log, id, start, ms))
  {
    if ms != [] {
      var n := |ms| - 1;
      ToldBefore(log, id, start, ms, n);
      MovesKeepInv(log, id, start, ms[..n]);
      assert Told(id, Before(log, id, start, ms, n), ms[n]);
      MovedKeepsInv(log, id, Moves(log, id, start, ms[..n]), ms[n]);
    }
  }

  // ---- Which results reach the proposal ----

  predicate DoesNotRead(ms: seq<Move>, run: nat) {
    forall i :: 0 <= i < |ms| ==> ms[i] != Read(run)
  }

  /** The moves of a run of the job that reads after `before` and is about to return after `after`. */
  function WithRead(before: seq<Move>, run: nat, after: seq<Move>): seq<Move> {
    before + [Read(run)] + after
  }

  lemma {:induction false} ReadStays(log: seq<Created>, id: string, start: Site, before: seq<Move>, run: nat, after: seq<Move>)
    requires DoesNotRead(after, run)
    ensures var s := Moves(log, id, start, WithRead(before, run, after));
      run in s.read && s.read[run] == JobIdOf(Moves(log, id, start, before).refreshes.store, id)
  {
    var ms := WithRead(before, run, after);
    if after == [] {
      assert ms[..|ms| - 1] == before;
    } else {
      var n := |after| - 1;
      assert ms[..|ms| - 1] == WithRead(before, run, after[..n]);
      ReadStays(log, id, start, before, run, after[..n]);
    }
  }

  /** The site when the result is delivered to its proposal, or lost. */
  function Outcome(s: Site, report: Tally.Report, reaches: bool): Site {
    if reaches then s.(w := s.w.(p := Governor.Delivered(s.w.p, report))) else s
  }

  lemma KnownNumberReaches(log: seq<Created>, id: string, s: Site, run: nat, report: Tally.Report)
    requires SiteInv(id, s) && run in s.read
    ensures Moved(log, id, s, Return(run, report)) == Outcome(s, report, s.read[run].Some? && s.read[run].value != 0)
  {
    assert Known(s.w, s.read[run]);
  }

  predicate FoundJob(found: Option<nat>) { found.Some? && found.value != 0 }

  /** Over every interleaving of refreshes, contract steps and runs of the job, the result of a run reaches
      its proposal if and only if, when the run read the stored list, the latest refresh on the list's
      chain with the creation event in its window had found a job number; otherwise it changes nothing of
      the proposal. */
  lemma ResultReachesIff(log: seq<Created>, id: string, start: Site, before: seq<Move>, run: nat, after: seq<Move>, report: Tally.Report)
    requires SiteInv(id, start) && AllIdle(start.refreshes)
    requires AllTold(log, id, start, WithRead(before, run, after)) && DoesNotRead(after, run)
    ensures var s := Moves(log, id, start, WithRead(before, run, after));
      var found := LastFound(log, id, start.refreshes.store, ChainAfter(log, start, before));
      Moved(log, id, s, Return(run, report)) == Outcome(s, report, FoundJob(found))
  {
    ReadStays(log, id, start, before, run, after);
    RefreshesRun(log, id, start, before);
    StoredJobIdIs(log, id, start.refreshes, Renewals(before));
    MovesKeepInv(log, id, start, WithRead(before, run, after));
    KnownNumberReaches(log, id, Moves(log, id, start, WithRead(before, run, after)), run, report);
  }

  predicate Decided(w: Governor.World) {
    w.Status() == Some(Governor.Succeeded) || w.Status() == Some(Governor.Defeated)
  }

  lemma DeliveryDecides(w: Governor.World, report: Tally.Report)
    requires w.Status() == Some(Governor.ResolutionRequested) && report.toReward != []
    ensures !Decided(w) && Decided(w.(p := Governor.Delivered(w.p, report)))
  {
  }

  /** So a proposal that waits for its result is decided by it in exactly that case. */
  lemma ResultDecidesIff(log: seq<Created>, id: string, start: Site, before: seq<Move>, run: nat, after: seq<Move>, report: Tally.Report)
    requires SiteInv(id, start) && AllIdle(start.refreshes)
    requires AllTold(log, id, start, WithRead(before, run, after)) && DoesNotRead(after, run)
    requires Moves(log, id, start, WithRead(before, run, after)).w.Status() == Some(Governor.ResolutionRequested)
    requires report.toReward != []
    ensures var s := Moves(log, id, start, WithRead(before, run, after));
      Decided(Moved(log, id, s, Return(run, report)).w) <==>
        FoundJob(LastFound(log, id, start.refreshes.store, ChainAfter(log, start, before)))
  {
    ResultReachesIff(log, id, start, before, run, after, report);
    DeliveryDecides(Moves(log, id, start, WithRead(before, run, after)).w, report);
  }

  /** When no save overlaps another, the latest saved refresh with the creation event in its window
      decides. */
  lemma ResultReachesUndisturbedIff(log: seq<Created>, id: string, start: Site, before: seq<Move>, run: nat, after: seq<Move>, report: Tally.Report)
    requires SiteInv(id, start) && AllIdle(start.refreshes) && AllUndisturbed(log, start.refreshes, Renewals(before))
    requires AllTold(log, id, start, WithRead(before, run, after)) && DoesNotRead(after, run)
    ensures var s := Moves(log, id, start, WithRead(before, run, after));
      var found := LastFound(log, id, start.refreshes.store, Saved(log, start.refreshes, Renewals(before)));
      Moved(log, id, s, Return(run, report)) == Outcome(s, report, FoundJob(found))
  {
    ResultReachesIff(log, id, start, before, run, after, report);
    UndisturbedChainIsSaved(log, start.refreshes, Renewals(before));
  }

  // ---- Which refreshes secure it ----

  /** The refresh is told the present job number. */
  predicate ToldNow(id: string, s: Site, m: Move) {
    m.Renew? && m.e.Query? && m.e.view.core(id).Some? ==> m.e.view.core(id).value.bridgeId == s.w.p.bridgeId
  }

  predicate AllToldNow(log: seq<Created>, id: string, start: Site, ms: seq<Move>) {
    forall i :: 0 <= i < |ms| ==> ToldNow(id, Before(log, id, start, ms, i), ms[i])
  }

  predicate IsCancel(m: Move) { m.OnChain? && m.step.Cancel? }

  predicate NoCancel(ms: seq<Move>) {
    forall i :: 0 <= i < |ms| ==> !IsCancel(ms[i])
  }

  /** The refresh finds the proposal with its request: it has the creation event in its window, and is told
      a job. */
  predicate FindsJob(log: seq<Created>, id: string, r: Refresh) {
    Writes(log, id, r) && r.view.core(id).value.bridgeId != 0
  }

  predicate Renewed(log: seq<Created>, id: string, chain: seq<Refresh>) {
    exists i :: 0 <= i < |chain| && FindsJob(log, id, chain[i])
  }

  lemma RenewedOneMore(log: seq<Created>, id: string, chain: seq<Refresh>, r: Refresh)
    ensures Renewed(log, id, chain + [r]) <==> Renewed(log, id, chain) || FindsJob(log, id, r)
  {
    var all := chain + [r];
    assert all[|chain|] == r && forall i :: 0 <= i < |chain| ==> all[i] == chain[i];
  }

  lemma LastFoundOneMore(log: seq<Created>, id: string, initial: seq<Proposal>, chain: seq<Refresh>, r: Refresh)
    ensures LastFound(log, id, initial, chain + [r]) ==
      if Writes(log, id, r) then Some(r.view.core(id).value.bridgeId) else LastFound(log, id, initial, chain)
  {
    assert (chain + [r])[..|chain|] == chain;
  }

  lemma {:induction false} FoundWasRenewed(log: seq<Created>, id: string, initial: seq<Proposal>, chain: seq<Refresh>)
    requires !FoundJob(JobIdOf(initial, id)) && FoundJob(LastFound(log, id, initial, chain))
    ensures Renewed(log, id, chain)
  {
    var n := |chain| - 1;
    assert chain == chain[..n] + [chain[n]];
    RenewedOneMore(log, id, chain[..n], chain[n]);
    if !Writes(log, id, chain[n]) {
      FoundWasRenewed(log, id, initial, chain[..n]);
    }
  }

  /** Once a chain has found the request, it is still found, because the request is still there. */
  predicate StillFound(log: seq<Created>, id: string, initial: seq<Proposal>, w: Governor.World, chain: seq<Refresh>) {
    Renewed(log, id, chain) ==> FoundJob(LastFound(log, id, initial, chain)) && w.p.bridgeId != 0
  }

  predicate AllStillFound(log: seq<Created>, id: string, initial: seq<Proposal>, w: Governor.World, o: Origins) {
    && StillFound(log, id, initial, w, o.store)
    && forall c :: 0 <= c < |o.lists| ==> StillFound(log, id, initial, w, o.lists[c])
  }

  lemma ExtendStillFound(log: seq<Created>, id: string, initial: seq<Proposal>, w: Governor.World, chain: seq<Refresh>, r: Refresh)
    requires StillFound(log, id, initial, w, chain)
    requires r.view.core(id).Some? ==> r.view.core(id).value.bridgeId == w.p.bridgeId
    ensures StillFound(log, id, initial, w, chain + [r])
  {
    RenewedOneMore(log, id, chain, r);
    LastFoundOneMore(log, id, initial, chain, r);
  }

  lemma TracedStillFound(log: seq<Created>, id: string, initial: seq<Proposal>, s: Site, o: Origins, e: Event)
    requires |o.lists| == |s.refreshes.phases| && AllStillFound(log, id, initial, s.w, o)
    requires ToldNow(id, s, Renew(e))
    ensures AllStillFound(log, id, initial, s.w, Traced(log, s.refreshes, o, e))
  {
    if e.client < |o.lists| {
      assert StillFound(log, id, initial, s.w, o.lists[e.client]);
      if e.Query? {
        ExtendStillFound(log, id, initial, s.w, o.lists[e.client], Refresh(e.head, e.tip, e.view));
      }
    }
  }

  lemma RequestStays(w: Governor.World, step: Governor.Step)
    requires w.p.bridgeId != 0 && !step.Cancel?
    ensures Governor.Next(w, step).p.bridgeId != 0
  {
  }

  lemma MovedKeepsRequest(log: seq<Created>, id: string, s: Site, m: Move)
    requires s.w.p.bridgeId != 0 && !IsCancel(m)
    ensures Moved(log, id, s, m).w.p.bridgeId != 0
  {
    match m
    case Renew(_) =>
    case OnChain(step) => RequestStays(s.w, step);
    case Read(_) =>
    case Return(run, report) =>
      if run in s.read && s.read[run].Some? {
        RequestStays(s.w, Governor.Fulfil(s.read[run].value, report));
      }
  }

  lemma LaterStillFound(log: seq<Created>, id: string, initial: seq<Proposal>, w: Governor.World, v: Governor.World, o: Origins)
    requires AllStillFound(log, id, initial, w, o) && (w.p.bridgeId != 0 ==> v.p.bridgeId != 0)
    ensures AllStillFound(log, id, initial, v, o)
  {
    forall c | 0 <= c < |o.lists|
      ensures StillFound(log, id, initial, v, o.lists[c])
    {
      assert StillFound(log, id, initial, w, o.lists[c]);
    }
  }

  function ChainsAfter(log: seq<Created>, start: Site, ms: seq<Move>): (o: Origins)
    ensures |o.lists| == |start.refreshes.phases|
  {
    Chains(log, start.refreshes, Renewals(ms))
  }

  lemma ChainsAfterLast(log: seq<Created>, id: string, start: Site, ms: seq<Move>)
    requires ms != []
    ensures var n := |ms| - 1;
      var s, o := Moves(log, id, start, ms[..n]), ChainsAfter(log, start, ms[..n]);
      && |o.lists| == |s.refreshes.phases|
      && ChainsAfter(log, start, ms) == if ms[n].Renew? then Traced(log, s.refreshes, o, ms[n].e) else o
  {
    var n := |ms| - 1;
    RefreshesRun(log, id, start, ms[..n]);
    RenewalsLast(ms);
    RunKeepsClients(log, start.refreshes, Renewals(ms[..n]));
    if ms[n].Renew? {
      OneMoreEvent(log, start.refreshes, Renewals(ms[..n]), ms[n].e);
    }
  }

  lemma ToldNowBefore(log: seq<Created>, id: string, start: Site, ms: seq<Move>, n: nat)
    requires n <= |ms| && AllToldNow(log, id, start, ms)
    ensures AllToldNow(log, id, start, ms[..n])
  {
    forall i | 0 <= i < n
      ensures ToldNow(id, Before(log, id, start, ms[..n], i), ms[..n][i])
    {
      assert ms[..n][..i] == ms[..i];
      assert ToldNow(id, Before(log, id, start, ms, i), ms[i]);
    }
  }

  lemma {:induction false} MovesStillFound(log: seq<Created>, id: string, start: Site, ms: seq<Move>)
    requires AllToldNow(log, id, start, ms) && NoCancel(ms)
    ensures AllStillFound(log, id, start.refreshes.store, Moves(log, id, start, ms).w, ChainsAfter(log, start, ms))
  {
    if ms != [] {
      var n := |ms| - 1;
      var initial, s, o := start.refreshes.store, Moves(log, id, start, ms[..n]), ChainsAfter(log, start, ms[..n]);
      ToldNowBefore(log, id, start, ms, n);
      MovesStillFound(log, id, start, ms[..n]);
      ChainsAfterLast(log, id, start, ms);
      assert ToldNow(id, Before(log, id, start, ms, n), ms[n]);
      if ms[n].Renew? {
        TracedStillFound(log, id, initial, s, o, ms[n].e);
      } else {
        if s.w.p.bridgeId != 0 {
          MovedKeepsRequest(log, id, s, ms[n]);
        }
        LaterStillFound(log, id, initial, s.w, Moved(log, id, s, ms[n]).w, o);
      }
    }
  }

  lemma JobsAfterMove(log: seq<Created>, id: string, s: Site, m: Move)
    requires JobsInv(s.w)
    ensures JobsInv(Moved(log, id, s, m).w)
  {
    match m
    case Renew(_) =>
    case OnChain(step) => NextKeepsJobs(s.w, step);
    case Read(_) =>
    case Return(run, report) =>
      if run in s.read && s.read[run].Some? {
        NextKeepsJobs(s.w, Governor.Fulfil(s.read[run].value, report));
      }
  }

  lemma {:induction false} MovesKeepJobs(log: seq<Created>, id: string, start: Site, ms: seq<Move>)
    requires JobsInv(start.w)
    ensures JobsInv(Moves(log, id, start, ms).w)
  {
    if ms != [] {
      var n := |ms| - 1;
      MovesKeepJobs(log, id, start, ms[..n]);
      JobsAfterMove(log, id, Moves(log, id, start, ms[..n]), ms[n]);
    }
  }

  lemma ToldNowIsTold(log: seq<Created>, id: string, start: Site, ms: seq<Move>)
    requires JobsInv(start.w) && AllToldNow(log, id, start, ms)
    ensures AllTold(log, id, start, ms)
  {
    forall i | 0 <= i < |ms|
      ensures Told(id, Before(log, id, start, ms, i), ms[i])
    {
      assert ToldNow(id, Before(log, id, start, ms, i), ms[i]);
      MovesKeepJobs(log, id, start, ms[..i]);
    }
  }

  /** With answers that are up to date and no failed job, a proposal without stored job number gets its
      result if and only if, on the chain of the list that the job read, some refresh queried the contract
      after the request while the creation event was in its window. */
  lemma ReachesIffRenewedAfterRequest(log: seq<Created>, id: string, start: Site, before: seq<Move>, run: nat, after: seq<Move>,
                                      report: Tally.Report)
    requires SiteInv(id, start) && AllIdle(start.refreshes) && !FoundJob(JobIdOf(start.refreshes.store, id))
    requires AllToldNow(log, id, start, WithRead(before, run, after)) && NoCancel(before) && DoesNotRead(after, run)
    ensures var s := Moves(log, id, start, WithRead(before, run, after));
      Moved(log, id, s, Return(run, report)) == Outcome(s, report, Renewed(log, id, ChainAfter(log, start, before)))
  {
    var ms, chain := WithRead(before, run, after), ChainAfter(log, start, before);
    ToldNowIsTold(log, id, start, ms);
    ResultReachesIff(log, id, start, before, run, after, report);
    assert ms[..|before|] == before;
    ToldNowBefore(log, id, start, ms, |before|);
    MovesStillFound(log, id, start, before);
    assert StillFound(log, id, start.refreshes.store, Moves(log, id, start, before).w, chain);
    if FoundJob(LastFound(log, id, start.refreshes.store, chain)) {
      FoundWasRenewed(log, id, start.refreshes.store, chain);
    }
  }

  // ---- A request that comes too late ----

  /** No refresh on a chain could see the request and the creation together. */
  predicate NoneRenewed(log: seq<Created>, id: string, o: Origins) {
    !Renewed(log, id, o.store) && forall c :: 0 <= c < |o.lists| ==> !Renewed(log, id, o.lists[c])
  }

  lemma TracedNoneRenewed(log: seq<Created>, id: string, s: State, o: Origins, e: Event)
    requires |o.lists| == |s.phases| && NoneRenewed(log, id, o)
    requires e.Query? ==> !FindsJob(log, id, Refresh(e.head, e.tip, e.view))
    ensures NoneRenewed(log, id, Traced(log, s, o, e))
  {
    if e.client < |o.lists| && e.Query? {
      RenewedOneMore(log, id, o.lists[e.client], Refresh(e.head, e.tip, e.view));
    }
  }

  /** The move queries the contract while a resolution is requested, and has its window after the
      creation. */
  predicate TooLate(log: seq<Created>, id: string, s: Site, m: Move) {
    m.Renew? && m.e.Query? && s.w.p.bridgeId != 0 ==>
      forall e :: e in log && e.id == id ==> e.block < m.e.head - LOOK_BACK
  }

  predicate AllTooLate(log: seq<Created>, id: string, start: Site, ms: seq<Move>) {
    forall i :: 0 <= i < |ms| ==> TooLate(log, id, Before(log, id, start, ms, i), ms[i])
  }

  lemma TooLateFindsNothing(log: seq<Created>, id: string, s: Site, e: Event)
    requires e.Query? && TooLate(log, id, s, Renew(e)) && ToldNow(id, s, Renew(e))
    ensures !FindsJob(log, id, Refresh(e.head, e.tip, e.view))
  {
    VisibleIds(log, e.head - LOOK_BACK, e.tip, id);
  }

  lemma TooLateBefore(log: seq<Created>, id: string, start: Site, ms: seq<Move>, n: nat)
    requires n <= |ms| && AllTooLate(log, id, start, ms)
    ensures AllTooLate(log, id, start, ms[..n])
  {
    forall i | 0 <= i < n
      ensures TooLate(log, id, Before(log, id, start, ms[..n], i), ms[..n][i])
    {
      assert ms[..n][..i] == ms[..i];
      assert TooLate(log, id, Before(log, id, start, ms, i), ms[i]);
    }
  }

  lemma {:induction false} MovesNoneRenewed(log: seq<Created>, id: string, start: Site, ms: seq<Move>)
    requires AllToldNow(log, id, start, ms) && AllTooLate(log, id, start, ms)
    ensures NoneRenewed(log, id, ChainsAfter(log, start, ms))
  {
    if ms != [] {
      var n := |ms| - 1;
      var s, o := Moves(log, id, start, ms[..n]), ChainsAfter(log, start, ms[..n]);
      ToldNowBefore(log, id, start, ms, n);
      TooLateBefore(log, id, start, ms, n);
      MovesNoneRenewed(log, id, start, ms[..n]);
      ChainsAfterLast(log, id, start, ms);
      assert ToldNow(id, Before(log, id, start, ms, n), ms[n]) && TooLate(log, id, Before(log, id, start, ms, n), ms[n]);
      if ms[n].Renew? {
        if ms[n].e.Query? {
          TooLateFindsNothing(log, id, s, ms[n].e);
        }
        TracedNoneRenewed(log, id, s.refreshes, o, ms[n].e);
      }
    }
  }

  /** When the request comes so late that every query after it has its window after the creation, the
      result is lost, however the refreshes interleave. */
  lemma LateRequestLosesResult(log: seq<Created>, id: string, start: Site, before: seq<Move>, run: nat, after: seq<Move>,
                               report: Tally.Report)
    requires SiteInv(id, start) && AllIdle(start.refreshes) && !FoundJob(JobIdOf(start.refreshes.store, id))
    requires AllToldNow(log, id, start, WithRead(before, run, after)) && DoesNotRead(after, run)
    requires AllTooLate(log, id, start, before)
    ensures var s := Moves(log, id, start, WithRead(before, run, after));
      Moved(log, id, s, Return(run, report)) == s
  {
    var ms, chain := WithRead(before, run, after), ChainAfter(log, start, before);
    ToldNowIsTold(log, id, start, ms);
    ResultReachesIff(log, id, start, before, run, after, report);
    assert ms[..|before|] == before;
    ToldNowBefore(log, id, start, ms, |before|);
    MovesNoneRenewed(log, id, start, before);
    if FoundJob(LastFound(log, id, start.refreshes.store, chain)) {
      FoundWasRenewed(log, id, start.refreshes.store, chain);
    }
  }

  // ---- A stale save restores an old number ----

  /** A contract that answers everything, with one job number, and has no results yet. */
  function Telling(job: nat): View {
    View(_ => Some(Adapter("", "")), _ => Some(0), _ => Some(Core(0, 0, 0, job)), _ => Some(0),
         Events([], [], 0, 0, (_, _) => false), "a", true, true)
  }

  lemma TellingLooksUp(head: int, job: nat, id: string)
    ensures !Unanswered(Telling(job).rewards, head, id, "a")
  {
  }

  lemma TellingMakes(seen: seq<Created>, prior: seq<Proposal>, job: nat)
    requires forall e :: e in seen ==> e.callDatas != []
    ensures AllFreshReadable(Telling(job), seen) && AllOthersReadable(Telling(job), prior, seen)
  {
  }

  lemma TellingRefreshes(seen: seq<Created>, prior: seq<Proposal>, head: int, view: View, job: nat)
    requires view == Telling(job) && forall e :: e in seen ==> e.callDatas != []
    ensures Refreshed(view, prior, seen, head).Some?
  {
    TellingMakes(seen, prior, job);
    forall id
      ensures !Unanswered(view.rewards, head, id, view.account)
    {
      TellingLooksUp(head, job, id);
    }
    RefreshGoesThroughIff(view, prior, seen, head);
  }

  lemma TellingGoesThrough(log: seq<Created>, prior: seq<Proposal>, head: int, tip: int, job: nat)
    requires forall e :: e in log ==> e.callDatas != []
    ensures AfterRefresh(log, prior, Refresh(head, tip, Telling(job))).Some?
  {
    VisibleFrom(log, head - LOOK_BACK, tip);
    TellingRefreshes(Visible(log, head - LOOK_BACK, tip), prior, head, Telling(job), job);
  }

  lemma {:induction false} VisibleFrom(log: seq<Created>, a: int, b: int)
    ensures forall e :: e in Visible(log, a, b) ==> e in log
  {
    if log != [] {
      VisibleFrom(log[..|log| - 1], a, b);
    }
  }

  lemma {:induction false} RenewalsOfRenews(events: seq<Event>)
    ensures Renewals(AsMoves(events)) == events
  {
    if events != [] {
      var n := |events| - 1;
      RenewalsOfRenews(events[..n]);
      assert AsMoves(events)[..n] == AsMoves(events[..n]);
    }
  }

  function AsMoves(events: seq<Event>): seq<Move> {
    seq(|events|, i requires 0 <= i < |events| => Renew(events[i]))
  }

  lemma SeenOnlyByFast(e: Created, initial: seq<Proposal>, fast: Refresh, slow: Refresh)
    requires e.block == 0 && fast == Refresh(1000, 1000, Telling(5)) && slow == Refresh(1001, 1001, Telling(5))
    ensures LastFound([e], e.id, initial, [fast]) == Some(5)
    ensures LastFound([e], e.id, initial, [slow]) == JobIdOf(initial, e.id)
  {
    VisibleOfOne(e, 0, 1000);
    VisibleOfOne(e, 1, 1001);
    assert [e][0].id in EventIds([e]);
    assert [fast][..0] == [] && [slow][..0] == [];
  }

  lemma {:induction false} RenewsKeepWorld(log: seq<Created>, id: string, start: Site, events: seq<Event>)
    ensures Moves(log, id, start, AsMoves(events)).w == start.w
  {
    if events != [] {
      var n := |events| - 1;
      RenewsKeepWorld(log, id, start, events[..n]);
      assert AsMoves(events)[..n] == AsMoves(events[..n]);
    }
  }

  /** A run of the job that reads number zero does nothing. */
  lemma ZeroReadLosesResult(log: seq<Created>, id: string, start: Site, events: seq<Event>, run: nat, report: Tally.Report)
    requires JobIdOf(Run(log, start.refreshes, events).store, id) == Some(0) && 0 !in start.w.jobs
    ensures var s := Moves(log, id, start, WithRead(AsMoves(events), run, []));
      Moved(log, id, s, Return(run, report)) == s
  {
    var before := AsMoves(events);
    ReadStays(log, id, start, before, run, []);
    RefreshesRun(log, id, start, before);
    RenewalsOfRenews(events);
    RenewsKeepWorld(log, id, start, events);
    assert WithRead(before, run, [])[..|before|] == before;
  }

  lemma StaleSaveRestoresZero(e: Created, p: Proposal, start: State, fast: Refresh, slow: Refresh)
    requires e.block == 0 && e.callDatas != [] && p.id == e.id && p.jobId == 0
    requires start.store == [p] && |start.phases| == 2 && AllIdle(start)
    requires fast == Refresh(1000, 1000, Telling(5)) && slow == Refresh(1001, 1001, Telling(5))
    ensures JobIdOf(Run([e], start, FastFirst(fast)).store, e.id) == Some(5)
    ensures JobIdOf(Run([e], start, FastFirst(fast) + [QueryOf(0, slow)] + [Save(0)]).store, e.id) == Some(0)
  {
    TellingGoesThrough([e], [p], 1000, 1000, 5);
    TellingGoesThrough([e], [p], 1001, 1001, 5);
    StaleSaveDropsRefresh([e], start, fast, slow);
    SeenOnlyByFast(e, [p], fast, slow);
    StoredJobIdIs([e], e.id, start, FastFirst(fast));
    StoredJobIdIs([e], e.id, start, FastFirst(fast) + [QueryOf(0, slow)] + [Save(0)]);
    JobIdIs([p], e.id);
  }

  /** A proposal is created at block 0 and stored without job. Once its job 5 is requested, two clients load
      the list; one queries at block 1000 and stores job 5, then the other queries at block 1001, when the
      creation has left the window, and saves. The latest refresh with the creation in its window has
      found the job and saved it, and still the result is lost. */
  lemma StaleSaveLosesResult(e: Created, p: Proposal, w: Governor.World, report: Tally.Report)
    requires e.block == 0 && e.callDatas != [] && p.id == e.id && p.jobId == 0
    requires w.p.bridgeId == 5 && w.jobs == {5}
    ensures var start := Site(State([p], 0, 0, [Idle, Idle]), w, map[]);
      var fast, slow := Refresh(1000, 1000, Telling(5)), Refresh(1001, 1001, Telling(5));
      var all := FastFirst(fast) + [QueryOf(0, slow)] + [Save(0)];
      var s := Moves([e], e.id, start, WithRead(AsMoves(all), 0, []));
      && JobIdOf(Run([e], start.refreshes, FastFirst(fast)).store, e.id) == Some(5)
      && JobIdOf(Run([e], start.refreshes, all).store, e.id) == Some(0)
      && Moved([e], e.id, s, Return(0, report)) == s
  {
    var start := Site(State([p], 0, 0, [Idle, Idle]), w, map[]);
    var fast, slow := Refresh(1000, 1000, Telling(5)), Refresh(1001, 1001, Telling(5));
    var all := FastFirst(fast) + [QueryOf(0, slow)] + [Save(0)];
    StaleSaveRestoresZero(e, p, start.refreshes, fast, slow);
    ZeroReadLosesResult([e], e.id, start, all, 0, report);
  }
}
