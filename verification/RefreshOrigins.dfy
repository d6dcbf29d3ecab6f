/**
 Where a stored list comes from. A save stores the list its client loaded, as its query has changed it; the
 loaded list came from an earlier save, and so on. The refreshes on this chain, one after the other,
 give the stored list, however the refreshes interleave.
 */
module RefreshOrigins {
  import opened Common
  import opened RewardLookup
  import opened ProposalStore
  import opened ProposalRefresh

  /** The refreshes that made the stored list, and those that made the list of each client. */
  datatype Origins = Origins(store: seq<Refresh>, lists: seq<seq<Refresh>>)

  /** A load takes over the chain of the store, a query that goes through extends it, a save hands it to the
      store. */
  function Traced(log: seq<Created>, s: State, o: Origins, e: Event): Origins
    requires |o.lists| == |s.phases|
  {
    var c := e.client;
    if c >= |s.phases| then o
    else
      match e
      case Load(_) => if s.phases[c].Idle? then o.(lists := o.lists[c := o.store]) else o
      case Query(_, head, tip, view) =>
        if s.phases[c].Loaded? && AfterRefresh(log, s.phases[c].list, Refresh(head, tip, view)).Some?
        then o.(lists := o.lists[c := o.lists[c] + [Refresh(head, tip, view)]]) else o
      case Save(_) => if s.phases[c].Ready? then o.(store := o.lists[c]) else o
      case Fail(_) => o
  }

  lemma {:induction false} RunKeepsClients(log: seq<Created>, start: State, events: seq<Event>)
    ensures |Run(log, start, events).phases| == |start.phases|
  {
    if events != [] {
      RunKeepsClients(log, start, events[..|events| - 1]);
    }
  }

  /** The chains after a run, from a start without refreshes under way. */
  function Chains(log: seq<Created>, start: State, events: seq<Event>): (o: Origins)
    ensures |o.lists| == |start.phases|
  {
    if events == [] then Origins([], seq(|start.phases|, _ => []))
    else
      var n := |events| - 1;
      RunKeepsClients(log, start, events[..n]);
      Traced(log, Run(log, start, events[..n]), Chains(log, start, events[..n]), events[n])
  }

  /** A run with its chains, as it grows by one event. */
  lemma OneMoreEvent(log: seq<Created>, start: State, events: seq<Event>, e: Event)
    ensures Run(log, start, events + [e]) == Step(log, Run(log, start, events), e)
    ensures |Chains(log, start, events).lists| == |Run(log, start, events).phases|
    ensures Chains(log, start, events + [e]) == Traced(log, Run(log, start, events), Chains(log, start, events), e)
  {
    RunKeepsClients(log, start, events);
    assert (events + [e])[..|events|] == events;
  }

  function Chain(log: seq<Created>, start: State, events: seq<Event>): seq<Refresh> {
    Chains(log, start, events).store
  }

  predicate AllIdle(s: State) {
    forall c :: 0 <= c < |s.phases| ==> s.phases[c].Idle?
  }

  // ---- The store is the serial run of its chain ----

  predicate PhaseFrom(log: seq<Created>, initial: seq<Proposal>, p: Phase, chain: seq<Refresh>) {
    p.Idle? || p.list == Serial(log, initial, chain)
  }

  predicate StateFrom(log: seq<Created>, initial: seq<Proposal>, s: State, o: Origins) {
    && |o.lists| == |s.phases| && s.store == Serial(log, initial, o.store)
    && forall c :: 0 <= c < |s.phases| ==> PhaseFrom(log, initial, s.phases[c], o.lists[c])
  }

  lemma SerialOneMore(log: seq<Created>, store: seq<Proposal>, rs: seq<Refresh>, r: Refresh)
    ensures var before := Serial(log, store, rs);
      var after := AfterRefresh(log, before, r);
      Serial(log, store, rs + [r]) == if after.Some? then after.value else before
  {
    assert (rs + [r])[..|rs|] == rs;
  }

  lemma QueriedIs(log: seq<Created>, p: Phase, head: int, tip: int, view: View)
    requires p.Loaded?
    ensures var after, q := AfterRefresh(log, p.list, Refresh(head, tip, view)), Queried(log, p, head, tip, view);
      if after.Some? then q.Ready? && q.list == after.value else q.Idle?
  {
  }

  lemma StepKeepsFrom(log: seq<Created>, initial: seq<Proposal>, s: State, o: Origins, e: Event)
    requires StateFrom(log, initial, s, o)
    ensures StateFrom(log, initial, Step(log, s, e), Traced(log, s, o, e))
  {
    var c := e.client;
    if c < |s.phases| {
      var p := s.phases[c];
      assert PhaseFrom(log, initial, p, o.lists[c]);
      if e.Query? && p.Loaded? {
        QueriedIs(log, p, e.head, e.tip, e.view);
        SerialOneMore(log, initial, o.lists[c], Refresh(e.head, e.tip, e.view));
      }
      assert PhaseFrom(log, initial, NextPhase(log, s, p, e), Traced(log, s, o, e).lists[c]);
    }
  }

  lemma {:induction false} RunFrom(log: seq<Created>, start: State, events: seq<Event>)
    requires AllIdle(start)
    ensures StateFrom(log, start.store, Run(log, start, events), Chains(log, start, events))
  {
    if events != [] {
      var n := |events| - 1;
      RunFrom(log, start, events[..n]);
      StepKeepsFrom(log, start.store, Run(log, start, events[..n]), Chains(log, start, events[..n]), events[n]);
    }
  }

  /** However refreshes interleave, the stored list is what the refreshes on its chain store when they run
      one after the other; all other refreshes leave no trace. */
  lemma InterleavedStoreIsSerial(log: seq<Created>, start: State, events: seq<Event>)
    requires AllIdle(start)
    ensures Run(log, start, events).store == Serial(log, start.store, Chain(log, start, events))
  {
    RunFrom(log, start, events);
  }

  // ---- Every refresh on a chain goes through ----

  ghost predicate GoesThrough(log: seq<Created>, initial: seq<Proposal>, chain: seq<Refresh>) {
    Successes(log, initial, chain) == chain
  }

  ghost predicate ThroughState(log: seq<Created>, initial: seq<Proposal>, o: Origins) {
    GoesThrough(log, initial, o.store) && forall c :: 0 <= c < |o.lists| ==> GoesThrough(log, initial, o.lists[c])
  }

  lemma GoesThroughOneMore(log: seq<Created>, initial: seq<Proposal>, chain: seq<Refresh>, r: Refresh)
    requires GoesThrough(log, initial, chain) && AfterRefresh(log, Serial(log, initial, chain), r).Some?
    ensures GoesThrough(log, initial, chain + [r])
  {
    assert (chain + [r])[..|chain|] == chain;
  }

  lemma StepGoesThrough(log: seq<Created>, initial: seq<Proposal>, s: State, o: Origins, e: Event)
    requires StateFrom(log, initial, s, o) && ThroughState(log, initial, o)
    ensures ThroughState(log, initial, Traced(log, s, o, e))
  {
    var c := e.client;
    if c < |s.phases| && e.Query? && s.phases[c].Loaded? {
      var r := Refresh(e.head, e.tip, e.view);
      assert PhaseFrom(log, initial, s.phases[c], o.lists[c]);
      if AfterRefresh(log, s.phases[c].list, r).Some? {
        GoesThroughOneMore(log, initial, o.lists[c], r);
      }
    }
  }

  lemma {:induction false} RunGoesThrough(log: seq<Created>, start: State, events: seq<Event>)
    requires AllIdle(start)
    ensures ThroughState(log, start.store, Chains(log, start, events))
  {
    if events != [] {
      var n := |events| - 1;
      RunGoesThrough(log, start, events[..n]);
      RunFrom(log, start, events[..n]);
      StepGoesThrough(log, start.store, Run(log, start, events[..n]), Chains(log, start, events[..n]), events[n]);
    }
  }

  /** After any interleaving the store holds exactly the initial ids and those created in the window of a
      refresh on its chain. */
  lemma InterleavedStoreIsExact(log: seq<Created>, start: State, events: seq<Event>, id: string)
    requires AllIdle(start)
    ensures id in Ids(Run(log, start, events).store) <==>
      id in Ids(start.store) || CreatedSeen(log, Chain(log, start, events), id)
  {
    InterleavedStoreIsSerial(log, start, events);
    RunGoesThrough(log, start, events);
    SerialStoreIsExact(log, start.store, Chain(log, start, events), id);
  }

  // ---- Without overlap the chain is all that was saved ----

  /** The refresh that a save stores. */
  function SavedBy(s: State, o: Origins, e: Event): seq<Refresh>
    requires |o.lists| == |s.phases|
  {
    if CanSave(s, e) && o.lists[e.client] != [] then [o.lists[e.client][|o.lists[e.client]| - 1]] else []
  }

  /** The saved refreshes of a run, in the order of their saves. */
  function Saved(log: seq<Created>, start: State, events: seq<Event>): seq<Refresh> {
    if events == [] then []
    else
      var n := |events| - 1;
      RunKeepsClients(log, start, events[..n]);
      Saved(log, start, events[..n]) + SavedBy(Run(log, start, events[..n]), Chains(log, start, events[..n]), events[n])
  }

  /** A save with no other save since its client's load. */
  predicate Undisturbed(s: State, e: Event) {
    CanSave(s, e) ==> s.phases[e.client].seen == s.saves
  }

  predicate AllUndisturbed(log: seq<Created>, start: State, events: seq<Event>) {
    events == [] ||
    var n := |events| - 1;
    AllUndisturbed(log, start, events[..n]) && Undisturbed(Run(log, start, events[..n]), events[n])
  }

  /** A list that was loaded after the last save has the store's chain, and its own refresh once queried. */
  ghost predicate FreshPhase(s: State, o: Origins, p: Phase, chain: seq<Refresh>) {
    match p
    case Idle => true
    case Loaded(_, _, seen) => seen <= s.saves && (seen == s.saves ==> chain == o.store)
    case Ready(_, _, seen, _, _, _) =>
      seen <= s.saves && (seen == s.saves ==> chain != [] && chain[..|chain| - 1] == o.store)
  }

  ghost predicate FreshState(s: State, o: Origins) {
    |o.lists| == |s.phases| && forall c :: 0 <= c < |s.phases| ==> FreshPhase(s, o, s.phases[c], o.lists[c])
  }

  lemma QueryKeepsSeen(log: seq<Created>, p: Phase, head: int, tip: int, view: View)
    requires p.Loaded?
    ensures var q := Queried(log, p, head, tip, view);
      q.Ready? ==> q.seen == p.seen && AfterRefresh(log, p.list, Refresh(head, tip, view)).Some?
  {
  }

  lemma StepKeepsFresh(log: seq<Created>, s: State, o: Origins, e: Event)
    requires FreshState(s, o)
    ensures FreshState(Step(log, s, e), Traced(log, s, o, e))
  {
    var c := e.client;
    if c < |s.phases| {
      var p := s.phases[c];
      assert FreshPhase(s, o, p, o.lists[c]);
      if e.Query? && p.Loaded? {
        QueryKeepsSeen(log, p, e.head, e.tip, e.view);
        assert (o.lists[c] + [Refresh(e.head, e.tip, e.view)])[..|o.lists[c]|] == o.lists[c];
      }
    }
  }

  lemma {:induction false} RunKeepsFresh(log: seq<Created>, start: State, events: seq<Event>)
    requires AllIdle(start)
    ensures FreshState(Run(log, start, events), Chains(log, start, events))
  {
    if events != [] {
      var n := |events| - 1;
      RunKeepsFresh(log, start, events[..n]);
      StepKeepsFresh(log, Run(log, start, events[..n]), Chains(log, start, events[..n]), events[n]);
    }
  }

  lemma SaveExtendsChain(log: seq<Created>, s: State, o: Origins, e: Event)
    requires FreshState(s, o) && Undisturbed(s, e)
    ensures Traced(log, s, o, e).store == o.store + SavedBy(s, o, e)
  {
    if CanSave(s, e) {
      var chain := o.lists[e.client];
      assert FreshPhase(s, o, s.phases[e.client], chain);
      assert chain == chain[..|chain| - 1] + [chain[|chain| - 1]];
    }
  }

  /** When no save overlaps another, the chain is all saved refreshes in order. */
  lemma {:induction false} UndisturbedChainIsSaved(log: seq<Created>, start: State, events: seq<Event>)
    requires AllIdle(start) && AllUndisturbed(log, start, events)
    ensures Chain(log, start, events) == Saved(log, start, events)
  {
    if events != [] {
      var n := |events| - 1;
      UndisturbedChainIsSaved(log, start, events[..n]);
      RunKeepsFresh(log, start, events[..n]);
      SaveExtendsChain(log, Run(log, start, events[..n]), Chains(log, start, events[..n]), events[n]);
    }
  }

  // ---- A stale save drops a refresh from the chain ----

  function QueryOf(client: nat, r: Refresh): Event {
    Query(client, r.head, r.tip, r.view)
  }

  /** Both clients load, then the second one queries and saves. */
  function FastFirst(fast: Refresh): seq<Event> {
    [Load(0), Load(1)] + [QueryOf(1, fast)] + [Save(1)]
  }

  lemma OneLoads(log: seq<Created>, s: State, o: Origins, c: nat)
    requires |s.phases| == |o.lists| && c < |s.phases| && s.phases[c].Idle?
    ensures var t, u := Step(log, s, Load(c)), Traced(log, s, o, Load(c));
      && t.store == s.store && t.phases == s.phases[c := Loaded(s.store, s.upTo, s.saves)]
      && u == Origins(o.store, o.lists[c := o.store])
  {
  }

  lemma BothLoad(log: seq<Created>, start: State)
    requires |start.phases| == 2 && AllIdle(start)
    ensures var t, o := Run(log, start, [Load(0), Load(1)]), Chains(log, start, [Load(0), Load(1)]);
      && t.store == start.store && |t.phases| == 2
      && (forall c :: 0 <= c < 2 ==> t.phases[c].Loaded? && t.phases[c].list == start.store)
      && o == Origins([], [[], []])
  {
    var one := [Load(0)];
    assert Run(log, start, []) == start && Chains(log, start, []) == Origins([], [[], []]);
    OneMoreEvent(log, start, [], Load(0));
    assert [] + one == one;
    OneLoads(log, start, Origins([], [[], []]), 0);
    OneMoreEvent(log, start, one, Load(1));
    assert one + [Load(1)] == [Load(0), Load(1)];
    OneLoads(log, Run(log, start, one), Chains(log, start, one), 1);
  }

  lemma FastSaves(log: seq<Created>, start: State, fast: Refresh)
    requires |start.phases| == 2 && AllIdle(start) && AfterRefresh(log, start.store, fast).Some?
    ensures var t, o := Run(log, start, FastFirst(fast)), Chains(log, start, FastFirst(fast));
      && |t.phases| == 2 && t.phases[0].Loaded? && t.phases[0].list == start.store
      && |o.lists| == 2 && o.store == [fast] && o.lists[0] == []
  {
    var loads, q := [Load(0), Load(1)], QueryOf(1, fast);
    BothLoad(log, start);
    var t := Run(log, start, loads);
    OneMoreEvent(log, start, loads, q);
    QueriedIs(log, t.phases[1], fast.head, fast.tip, fast.view);
    OneMoreEvent(log, start, loads + [q], Save(1));
    assert [] + [fast] == [fast];
  }

  lemma SlowSaves(log: seq<Created>, s: State, o: Origins, slow: Refresh)
    requires |s.phases| == 2 && |o.lists| == 2 && s.phases[0].Loaded? && AfterRefresh(log, s.phases[0].list, slow).Some?
    ensures var t, u := Step(log, s, QueryOf(0, slow)), Traced(log, s, o, QueryOf(0, slow));
      |t.phases| == 2 && |u.lists| == 2 && Traced(log, t, u, Save(0)).store == o.lists[0] + [slow]
  {
    QueriedIs(log, s.phases[0], slow.head, slow.tip, slow.view);
  }

  /** The second refresh is on the chain of its own save, and no longer on that of the first, which had
      loaded before. */
  lemma StaleSaveDropsRefresh(log: seq<Created>, start: State, fast: Refresh, slow: Refresh)
    requires |start.phases| == 2 && AllIdle(start)
    requires AfterRefresh(log, start.store, fast).Some? && AfterRefresh(log, start.store, slow).Some?
    ensures Chain(log, start, FastFirst(fast)) == [fast]
    ensures Chain(log, start, FastFirst(fast) + [QueryOf(0, slow)] + [Save(0)]) == [slow]
  {
    var events, q := FastFirst(fast), QueryOf(0, slow);
    FastSaves(log, start, fast);
    OneMoreEvent(log, start, events, q);
    OneMoreEvent(log, start, events + [q], Save(0));
    SlowSaves(log, Run(log, start, events), Chains(log, start, events), slow);
    assert [] + [slow] == [slow];
  }

  // ---- What one refresh does, whatever the others do ----

  predicate NotFrom(events: seq<Event>, c: nat) {
    forall i :: 0 <= i < |events| ==> events[i].client != c
  }

  lemma {:induction false} PhaseStays(log: seq<Created>, start: State, before: seq<Event>, middle: seq<Event>, c: nat)
    requires c < |start.phases| && NotFrom(middle, c)
    ensures |Run(log, start, before).phases| == |Run(log, start, before + middle).phases| == |start.phases|
    ensures Run(log, start, before + middle).phases[c] == Run(log, start, before).phases[c]
  {
    RunKeepsClients(log, start, before);
    RunKeepsClients(log, start, before + middle);
    if middle == [] {
      assert before + middle == before;
    } else {
      var n := |middle| - 1;
      assert before + middle == (before + middle[..n]) + [middle[n]];
      PhaseStays(log, start, before, middle[..n], c);
      OneMoreEvent(log, start, before + middle[..n], middle[n]);
    }
  }

  /** The events of one refresh of a client, with those of others between them. */
  function OneRefresh(c: nat, first: seq<Event>, r: Refresh, second: seq<Event>): seq<Event> {
    [Load(c)] + first + [QueryOf(c, r)] + second
  }

  lemma AfterLoad(log: seq<Created>, start: State, before: seq<Event>, c: nat, first: seq<Event>)
    requires c < |start.phases| && AllIdle(start) && NotFrom(before, c) && NotFrom(first, c)
    ensures var loaded, t := Run(log, start, before), Run(log, start, before + [Load(c)] + first);
      |t.phases| == |start.phases| && t.phases[c] == Loaded(loaded.store, loaded.upTo, loaded.saves)
  {
    PhaseStays(log, start, [], before, c);
    assert [] + before == before;
    OneMoreEvent(log, start, before, Load(c));
    PhaseStays(log, start, before + [Load(c)], first, c);
  }

  /** The phase holds what a query has made, or is idle if it failed. */
  predicate Holds(p: Phase, made: Option<seq<Proposal>>, upTo: int) {
    if made.Some? then p.Ready? && p.list == made.value && p.upTo == upTo else p.Idle?
  }

  lemma QueriedHolds(log: seq<Created>, p: Phase, r: Refresh)
    requires p.Loaded?
    ensures Holds(Queried(log, p, r.head, r.tip, r.view), AfterRefresh(log, p.list, r), Max(p.upTo, r.tip))
  {
  }

  lemma QueryStep(log: seq<Created>, s: State, c: nat, r: Refresh)
    requires c < |s.phases| && s.phases[c].Loaded?
    ensures var t := Step(log, s, QueryOf(c, r));
      |t.phases| == |s.phases| && Holds(t.phases[c], AfterRefresh(log, s.phases[c].list, r), Max(s.phases[c].upTo, r.tip))
  {
    QueriedHolds(log, s.phases[c], r);
    assert Step(log, s, QueryOf(c, r)).phases[c] == Queried(log, s.phases[c], r.head, r.tip, r.view);
  }

  lemma QueryNext(log: seq<Created>, start: State, loads: seq<Event>, c: nat, r: Refresh, list: seq<Proposal>, upTo: int)
    requires c < |start.phases| == |Run(log, start, loads).phases|
    requires Run(log, start, loads).phases[c].Loaded?
    requires Run(log, start, loads).phases[c].list == list && Run(log, start, loads).phases[c].upTo == upTo
    ensures var t := Run(log, start, loads + [QueryOf(c, r)]);
      |t.phases| == |start.phases| && Holds(t.phases[c], AfterRefresh(log, list, r), Max(upTo, r.tip))
  {
    OneMoreEvent(log, start, loads, QueryOf(c, r));
    QueryStep(log, Run(log, start, loads), c, r);
  }

  lemma HoldsLater(log: seq<Created>, start: State, queries: seq<Event>, second: seq<Event>, c: nat,
                   made: Option<seq<Proposal>>, upTo: int)
    requires c < |start.phases| == |Run(log, start, queries).phases| && NotFrom(second, c)
    requires Holds(Run(log, start, queries).phases[c], made, upTo)
    ensures |Run(log, start, queries + second).phases| == |start.phases|
    ensures Holds(Run(log, start, queries + second).phases[c], made, upTo)
  {
    PhaseStays(log, start, queries, second, c);
  }

  lemma AfterQuery(log: seq<Created>, start: State, before: seq<Event>, c: nat, first: seq<Event>, r: Refresh, second: seq<Event>)
    requires c < |start.phases| && AllIdle(start) && NotFrom(before, c) && NotFrom(first, c) && NotFrom(second, c)
    ensures var loaded, t := Run(log, start, before), Run(log, start, before + OneRefresh(c, first, r, second));
      |t.phases| == |start.phases| && Holds(t.phases[c], AfterRefresh(log, loaded.store, r), Max(loaded.upTo, r.tip))
  {
    var loaded, loads := Run(log, start, before), before + [Load(c)] + first;
    AfterLoad(log, start, before, c, first);
    QueryNext(log, start, loads, c, r, loaded.store, loaded.upTo);
    HoldsLater(log, start, loads + [QueryOf(c, r)], second, c, AfterRefresh(log, loaded.store, r), Max(loaded.upTo, r.tip));
    SameEvents(before, c, first, r, second);
  }

  lemma SameEvents(before: seq<Event>, c: nat, first: seq<Event>, r: Refresh, second: seq<Event>)
    ensures before + OneRefresh(c, first, r, second) == before + [Load(c)] + first + [QueryOf(c, r)] + second
  {
  }

  lemma SaveStep(log: seq<Created>, s: State, c: nat, made: Option<seq<Proposal>>, upTo: int)
    requires c < |s.phases| && Holds(s.phases[c], made, upTo)
    ensures var t := Step(log, s, Save(c));
      if made.Some? then t.store == made.value && t.upTo == upTo else t.store == s.store && t.upTo == s.upTo
  {
  }

  /** Whatever other clients do: a refresh that loads, queries and saves stores what it makes of the list it
      had loaded, with the mark of that list raised to its tip, if it goes through, and changes nothing
      otherwise. */
  lemma RefreshStores(log: seq<Created>, start: State, before: seq<Event>, c: nat, first: seq<Event>, r: Refresh, second: seq<Event>)
    requires c < |start.phases| && AllIdle(start) && NotFrom(before, c) && NotFrom(first, c) && NotFrom(second, c)
    ensures var loaded, events := Run(log, start, before), before + OneRefresh(c, first, r, second);
      var after, t := AfterRefresh(log, loaded.store, r), Run(log, start, events + [Save(c)]);
      if after.Some? then t.store == after.value && t.upTo == Max(loaded.upTo, r.tip)
      else t.store == Run(log, start, events).store && t.upTo == Run(log, start, events).upTo
  {
    var loaded, events := Run(log, start, before), before + OneRefresh(c, first, r, second);
    AfterQuery(log, start, before, c, first, r, second);
    OneMoreEvent(log, start, events, Save(c));
    SaveStep(log, Run(log, start, events), c, AfterRefresh(log, loaded.store, r), Max(loaded.upTo, r.tip));
  }

  lemma EndIsNotReady(log: seq<Created>, s: State, c: nat, end: Event)
    requires c < |s.phases| && (end == Save(c) || end == Fail(c))
    ensures |Step(log, s, end).phases| == |s.phases| && !Step(log, s, end).phases[c].Ready?
  {
  }

  lemma SaveOfNothing(log: seq<Created>, s: State, c: nat)
    requires c < |s.phases| && !s.phases[c].Ready?
    ensures Step(log, s, Save(c)).store == s.store
  {
  }

  /** A refresh saves at most once: after a save or a failure, a further save without a new load stores
      nothing. */
  lemma RefreshStoresOnce(log: seq<Created>, start: State, before: seq<Event>, c: nat, end: Event, middle: seq<Event>)
    requires c < |start.phases| && AllIdle(start) && NotFrom(middle, c)
    requires end == Save(c) || end == Fail(c)
    ensures var events := before + [end] + middle;
      Run(log, start, events + [Save(c)]).store == Run(log, start, events).store
  {
    RunKeepsClients(log, start, before);
    OneMoreEvent(log, start, before, end);
    EndIsNotReady(log, Run(log, start, before), c, end);
    PhaseStays(log, start, before + [end], middle, c);
    OneMoreEvent(log, start, before + [end] + middle, Save(c));
    SaveOfNothing(log, Run(log, start, before + [end] + middle), c);
  }
}
