/** Properties of the proposal store: one merge, concurrent refreshes, and coverage over serial runs. */
module ProposalRefresh {
  import opened Common
  import opened RewardLookup
  import opened ProposalStore

  // ---- One merge ----

  lemma {:induction false} IsFirstStored(events: seq<Created>, e: Created)
    ensures e in FirstPerId(events) <==> IsFirst(events, e)
  {
    FirstPerIdShape(events);
    if IsFirst(events, e) {
      var k :| 0 <= k < |events| && events[k] == e && forall j :: 0 <= j < k ==> events[j].id != e.id;
      FirstAtIsKept(events, k);
    }
  }

  lemma {:induction false} FirstAtIsKept(events: seq<Created>, k: nat)
    requires k < |events| && forall j :: 0 <= j < k ==> events[j].id != events[k].id
    ensures events[k] in FirstPerId(events)
  {
    var n := |events| - 1;
    if k < n {
      FirstAtIsKept(events[..n], k);
    }
  }

  lemma {:induction false} FreshAllShape(view: View, es: seq<Created>)
    ensures FreshAll(view, es).Some? <==> forall k :: 0 <= k < |es| ==> FreshRecord(view, es[k]).Some?
    ensures FreshAll(view, es).Some? ==>
      && |FreshAll(view, es).value| == |es|
      && forall k :: 0 <= k < |es| ==> FreshRecord(view, es[k]) == Some(FreshAll(view, es).value[k])
  {
    if es != [] {
      var n := |es| - 1;
      FreshAllShape(view, es[..n]);
      assert forall k :: 0 <= k < n ==> es[..n][k] == es[k];
    }
  }

  lemma FreshRecordsShape(view: View, events: seq<Created>)
    requires FreshRecords(view, events).Some?
    ensures var firsts, news := FirstPerId(events), FreshRecords(view, events).value;
      && |news| == |firsts|
      && (forall k :: 0 <= k < |news| ==> FreshRecord(view, firsts[k]) == Some(news[k]) && news[k].id == firsts[k].id)
      && DistinctIds(news) && Ids(news) == EventIds(events)
  {
    var firsts, news := FirstPerId(events), FreshRecords(view, events).value;
    FreshAllShape(view, firsts);
    FirstPerIdShape(events);
    forall k | 0 <= k < |news|
      ensures news[k].id == firsts[k].id
    {
      FreshRecordId(view, firsts[k]);
    }
    SameIds(news, firsts);
  }

  lemma FreshRecordId(view: View, e: Created)
    requires FreshRecord(view, e).Some?
    ensures FreshRecord(view, e).value.id == e.id
  {
  }

  lemma SameIds(ps: seq<Proposal>, es: seq<Created>)
    requires |ps| == |es| && forall k :: 0 <= k < |ps| ==> ps[k].id == es[k].id
    ensures Ids(ps) == EventIds(es)
  {
  }

  lemma {:induction false} UpdatedRecordsReadable(view: View, ps: seq<Proposal>)
    ensures UpdatedRecords(view, ps).Some? <==> forall k :: 0 <= k < |ps| ==> UpdatedRecord(view, ps[k]).Some?
    ensures UpdatedRecords(view, ps).Some? ==>
      && |UpdatedRecords(view, ps).value| == |ps|
      && forall k :: 0 <= k < |ps| ==> UpdatedRecord(view, ps[k]) == Some(UpdatedRecords(view, ps).value[k])
  {
    if ps != [] {
      var n := |ps| - 1;
      UpdatedRecordsReadable(view, ps[..n]);
      assert forall k :: 0 <= k < n ==> ps[..n][k] == ps[k];
    }
  }

  lemma UpdatedRecordsShape(view: View, ps: seq<Proposal>)
    requires UpdatedRecords(view, ps).Some?
    ensures var updated := UpdatedRecords(view, ps).value;
      && |updated| == |ps|
      && (forall k :: 0 <= k < |ps| ==> UpdatedRecord(view, ps[k]) == Some(updated[k]) && updated[k].id == ps[k].id)
      && Ids(updated) == Ids(ps) && (DistinctIds(ps) ==> DistinctIds(updated))
  {
    UpdatedRecordsReadable(view, ps);
  }

  lemma IdsOfConcat(a: seq<Proposal>, b: seq<Proposal>)
    ensures Ids(a + b) == Ids(a) + Ids(b)
    ensures DistinctIds(a) && DistinctIds(b) && Ids(a) !! Ids(b) ==> DistinctIds(a + b)
  {
    var all := a + b;
    forall k | 0 <= k < |b|
      ensures b[k].id in Ids(all)
    {
      assert all[|a| + k] == b[k];
    }
    forall k | 0 <= k < |a|
      ensures a[k].id in Ids(all)
    {
      assert all[k] == a[k];
    }
    assert forall k :: 0 <= k < |all| ==> all[k].id == if k < |a| then a[k].id else b[k - |a|].id;
    if Ids(a) !! Ids(b) {
      assert forall i, j :: 0 <= i < |a| && 0 <= j < |b| ==> a[i].id in Ids(a) && b[j].id in Ids(b);
    }
  }

  /** A merge stores exactly the union of the stored ids and the ids of the events, each once. */
  lemma MergeIsUnion(view: View, prior: seq<Proposal>, events: seq<Created>)
    requires Merge(view, prior, events).Some?
    ensures var merged := Merge(view, prior, events).value;
      Ids(merged) == Ids(prior) + EventIds(events) && (DistinctIds(prior) ==> DistinctIds(merged))
  {
    var news := FreshRecords(view, events).value;
    var kept := Retained(prior, news);
    var updated := UpdatedRecords(view, kept).value;
    FreshRecordsShape(view, events);
    RetainedIds(prior, news);
    if DistinctIds(prior) {
      RetainedDistinct(prior, news);
    }
    UpdatedRecordsShape(view, kept);
    IdsOfConcat(news, updated);
  }

  /** The live figures of a record are what the contract and the vote list answer for its id. */
  predicate LiveAnswered(view: View, p: Proposal) {
    && view.core(p.id).Some? && view.state(p.id).Some? && view.votes(p.id).Some?
    && p.live.status == view.state(p.id).value
    && p.live.voteCount == view.votes(p.id).value
    && p.live.votesFor == view.core(p.id).value.forVotes
    && p.live.votesAgainst == view.core(p.id).value.againstVotes
    && p.live.abstainVotes == view.core(p.id).value.abstainVotes
  }

  /** The record is made from a creation event: what the event says, the decoded first call, and what the
      contract answers. */
  predicate MadeFrom(view: View, e: Created, p: Proposal) {
    && p.id == e.id
    && e.callDatas != [] && view.decode(e.callDatas[0]).Some?
    && p.details.name == view.decode(e.callDatas[0]).value.name
    && p.details.ipfsHash == view.decode(e.callDatas[0]).value.ipfsHash
    && p.details.description == e.description
    && p.details.targets == e.targets && p.details.values == e.values && p.details.callDatas == e.callDatas
    && p.details.descriptionHash == e.descriptionHash
    && LiveAnswered(view, p) && p.jobId == view.core(p.id).value.bridgeId
  }

  /** The record is a stored one with its live figures renewed, or entirely as it was when the contract does
      not answer for it. */
  predicate RenewedFrom(view: View, q: Proposal, p: Proposal) {
    && p.id == q.id && p.details == q.details && p.jobId == q.jobId
    && if view.core(q.id).None? then p.live == q.live else LiveAnswered(view, p)
  }

  /** The record a merge stores for an id: the on-chain record of the id's earliest event if there is
      one; otherwise the stored record, renewed. */
  predicate RightRecord(view: View, prior: seq<Proposal>, events: seq<Created>, p: Proposal) {
    if p.id in EventIds(events) then exists e :: e in events && IsFirst(events, e) && MadeFrom(view, e, p)
    else exists q :: q in prior && RenewedFrom(view, q, p)
  }

  lemma FreshRecordIsRight(view: View, prior: seq<Proposal>, events: seq<Created>, k: nat)
    requires FreshRecords(view, events).Some? && k < |FreshRecords(view, events).value|
    ensures RightRecord(view, prior, events, FreshRecords(view, events).value[k])
  {
    var firsts, news := FirstPerId(events), FreshRecords(view, events).value;
    FreshRecordsShape(view, events);
    assert news[k].id in Ids(news) && firsts[k] in firsts;
    IsFirstStored(events, firsts[k]);
  }

  lemma UpdatedRecordIsRight(view: View, prior: seq<Proposal>, events: seq<Created>, q: Proposal, p: Proposal)
    requires q in prior && q.id !in EventIds(events) && UpdatedRecord(view, q) == Some(p)
    ensures RightRecord(view, prior, events, p)
  {
  }

  lemma MergeStoresRightRecords(view: View, prior: seq<Proposal>, events: seq<Created>)
    requires Merge(view, prior, events).Some?
    ensures forall p :: p in Merge(view, prior, events).value ==> RightRecord(view, prior, events, p)
  {
    var news := FreshRecords(view, events).value;
    var kept := Retained(prior, news);
    var updated := UpdatedRecords(view, kept).value;
    forall k | 0 <= k < |news|
      ensures RightRecord(view, prior, events, news[k])
    {
      FreshRecordIsRight(view, prior, events, k);
    }
    UpdatedRecordsShape(view, kept);
    forall k | 0 <= k < |updated|
      ensures RightRecord(view, prior, events, updated[k])
    {
      RetainedMembers(prior, news, kept[k]);
      FreshRecordsShape(view, events);
      UpdatedRecordIsRight(view, prior, events, kept[k], updated[k]);
    }
  }

  // ---- The order of a merge ----

  /** The one id occurs before the other does. */
  predicate Earlier(ids: seq<string>, a: string, b: string) {
    exists i :: 0 <= i < |ids| && ids[i] == a && b !in ids[..i + 1]
  }

  lemma EarlierInLonger(ids: seq<string>, more: seq<string>, a: string, b: string)
    requires Earlier(ids, a, b)
    ensures Earlier(ids + more, a, b)
  {
    var i :| 0 <= i < |ids| && ids[i] == a && b !in ids[..i + 1];
    assert (ids + more)[..i + 1] == ids[..i + 1];
  }

  lemma EarlierThanNew(ids: seq<string>, a: string, b: string)
    requires a in ids && b !in ids
    ensures Earlier(ids + [b], a, b)
  {
    var i :| 0 <= i < |ids| && ids[i] == a;
    assert (ids + [b])[..i + 1] == ids[..i + 1];
  }

  function EventIdList(events: seq<Created>): seq<string> {
    seq(|events|, k requires 0 <= k < |events| => events[k].id)
  }

  lemma {:induction false} FirstsInOrder(events: seq<Created>, i: nat, j: nat)
    requires i < j < |FirstPerId(events)|
    ensures Earlier(EventIdList(events), FirstPerId(events)[i].id, FirstPerId(events)[j].id)
  {
    var n := |events| - 1;
    var firsts := FirstPerId(events[..n]);
    var ids, e := EventIdList(events[..n]), events[n];
    assert EventIdList(events) == ids + [e.id];
    if j < |firsts| {
      FirstsInOrder(events[..n], i, j);
      EarlierInLonger(ids, [e.id], firsts[i].id, firsts[j].id);
    } else {
      FirstPerIdShape(events[..n]);
      assert firsts[i] in firsts;
      var k :| 0 <= k < n && events[..n][k] == firsts[i];
      assert ids[k] == firsts[i].id;
      assert e.id !in ids;
      EarlierThanNew(ids, firsts[i].id, e.id);
    }
  }

  lemma {:induction false} RetainedInOrder(prior: seq<Proposal>, news: seq<Proposal>, i: nat, j: nat)
    requires DistinctIds(prior) && i < j < |Retained(prior, news)|
    ensures Earlier(IdList(prior), Retained(prior, news)[i].id, Retained(prior, news)[j].id)
  {
    var n := |prior| - 1;
    var kept := Retained(prior[..n], news);
    var ids, p := IdList(prior[..n]), prior[n];
    assert IdList(prior) == ids + [p.id];
    RetainedLast(prior, news);
    if j < |kept| {
      RetainedInOrder(prior[..n], news, i, j);
      EarlierInLonger(ids, [p.id], kept[i].id, kept[j].id);
    } else {
      RetainedMembers(prior[..n], news, kept[i]);
      var k :| 0 <= k < n && prior[..n][k] == kept[i];
      assert ids[k] == kept[i].id;
      assert p.id !in ids;
      EarlierThanNew(ids, kept[i].id, p.id);
    }
  }

  lemma FreshIds(view: View, events: seq<Created>)
    requires FreshRecords(view, events).Some?
    ensures IdList(FreshRecords(view, events).value) == EventIdList(FirstPerId(events))
  {
    FreshRecordsShape(view, events);
  }

  lemma UpdatedIds(view: View, ps: seq<Proposal>)
    requires UpdatedRecords(view, ps).Some?
    ensures IdList(UpdatedRecords(view, ps).value) == IdList(ps)
  {
    UpdatedRecordsShape(view, ps);
  }

  lemma IdListConcat(a: seq<Proposal>, b: seq<Proposal>)
    ensures IdList(a + b) == IdList(a) + IdList(b)
  {
  }

  lemma MergeIds(view: View, prior: seq<Proposal>, events: seq<Created>) returns (news: seq<Proposal>)
    requires Merge(view, prior, events).Some?
    ensures Ids(news) == EventIds(events)
    ensures IdList(Merge(view, prior, events).value) == EventIdList(FirstPerId(events)) + IdList(Retained(prior, news))
  {
    news := FreshRecords(view, events).value;
    var updated := UpdatedRecords(view, Retained(prior, news)).value;
    FreshRecordsShape(view, events);
    FreshIds(view, events);
    UpdatedIds(view, Retained(prior, news));
    IdListConcat(news, updated);
    assert Merge(view, prior, events).value == news + updated;
  }

  lemma NewAndOldIds(prior: seq<Proposal>, news: seq<Proposal>, events: seq<Created>)
    requires Ids(news) == EventIds(events)
    ensures forall id :: id in EventIdList(FirstPerId(events)) ==> id in EventIds(events)
    ensures forall id :: id in IdList(Retained(prior, news)) ==> id !in EventIds(events)
  {
    var firsts, kept := FirstPerId(events), Retained(prior, news);
    FirstPerIdShape(events);
    RetainedIds(prior, news);
    assert forall k :: 0 <= k < |firsts| ==> firsts[k].id in EventIds(firsts);
    assert forall k :: 0 <= k < |kept| ==> kept[k].id in Ids(kept);
  }

  /** Of two ids in a list: both have events and the one's first event is earlier, or only the one has an
      event, or neither has and the one was stored earlier. */
  predicate InOrder(prior: seq<Proposal>, events: seq<Created>, a: string, b: string) {
    if b in EventIds(events) then a in EventIds(events) && Earlier(EventIdList(events), a, b)
    else a in EventIds(events) || Earlier(IdList(prior), a, b)
  }

  /** A merge lists the proposals with events first, in the order of their first events, and then the
      others, in the order in which they were stored. */
  lemma MergeKeepsOrder(view: View, prior: seq<Proposal>, events: seq<Created>, i: nat, j: nat)
    requires DistinctIds(prior) && Merge(view, prior, events).Some? && i < j < |Merge(view, prior, events).value|
    ensures InOrder(prior, events, Merge(view, prior, events).value[i].id, Merge(view, prior, events).value[j].id)
  {
    var news := MergeIds(view, prior, events);
    IdsInOrder(IdList(Merge(view, prior, events).value), prior, news, events, i, j);
  }

  lemma IdsInOrder(ids: seq<string>, prior: seq<Proposal>, news: seq<Proposal>, events: seq<Created>, i: nat, j: nat)
    requires DistinctIds(prior) && Ids(news) == EventIds(events) && i < j < |ids|
    requires ids == EventIdList(FirstPerId(events)) + IdList(Retained(prior, news))
    ensures InOrder(prior, events, ids[i], ids[j])
  {
    var n := |FirstPerId(events)|;
    NewAndOldIds(prior, news, events);
    assert i < n ==> ids[i] in EventIdList(FirstPerId(events));
    assert i >= n ==> ids[i] in IdList(Retained(prior, news));
    assert j < n ==> ids[j] in EventIdList(FirstPerId(events));
    assert j >= n ==> ids[j] in IdList(Retained(prior, news));
    if j < n {
      FirstsInOrder(events, i, j);
    } else if i >= n {
      RetainedInOrder(prior, news, i - n, j - n);
    }
  }

  // ---- The earliest event in a window ----

  /** The event at an index of the log is in the blocks `a` to `b`, and no earlier one of its id is. */
  predicate FirstSeenAt(log: seq<Created>, a: int, b: int, k: nat) {
    k < |log| && a <= log[k].block <= b && forall j :: 0 <= j < k && a <= log[j].block <= b ==> log[j].id != log[k].id
  }

  predicate FirstSeen(log: seq<Created>, a: int, b: int, e: Created) {
    exists k :: 0 <= k < |log| && FirstSeenAt(log, a, b, k) && log[k] == e
  }

  lemma FirstOfOneMore(events: seq<Created>, x: Created, e: Created)
    ensures IsFirst(events + [x], e) <==> IsFirst(events, e) || (e == x && x.id !in EventIds(events))
  {
    var all := events + [x];
    assert forall k :: 0 <= k < |events| ==> all[k] == events[k];
    if IsFirst(all, e) {
      var k :| 0 <= k < |all| && all[k] == e && forall j :: 0 <= j < k ==> all[j].id != e.id;
      if k < |events| {
        assert events[k] == e && forall j :: 0 <= j < k ==> events[j].id != e.id;
      }
    }
    if IsFirst(events, e) {
      var k :| 0 <= k < |events| && events[k] == e && forall j :: 0 <= j < k ==> events[j].id != e.id;
      assert all[k] == e && forall j :: 0 <= j < k ==> all[j].id != e.id;
    }
    if e == x && x.id !in EventIds(events) {
      assert all[|events|] == e && forall j :: 0 <= j < |events| ==> all[j].id != e.id;
    }
  }

  lemma FirstSeenAtOneMore(log: seq<Created>, x: Created, a: int, b: int, k: nat)
    requires k < |log|
    ensures FirstSeenAt(log + [x], a, b, k) <==> FirstSeenAt(log, a, b, k)
  {
    assert forall j :: 0 <= j < |log| ==> (log + [x])[j] == log[j];
  }

  lemma LastIsFirstSeenIff(log: seq<Created>, x: Created, a: int, b: int)
    ensures FirstSeenAt(log + [x], a, b, |log|) <==> a <= x.block <= b && x.id !in EventIds(Visible(log, a, b))
  {
    var all := log + [x];
    VisibleIds(log, a, b, x.id);
    assert forall j :: 0 <= j < |log| ==> all[j] == log[j] && all[j] in log;
    assert all[|log|] == x;
  }

  lemma FirstSeenOneMore(log: seq<Created>, x: Created, a: int, b: int, e: Created)
    ensures FirstSeen(log + [x], a, b, e) <==>
      FirstSeen(log, a, b, e) || (e == x && a <= x.block <= b && x.id !in EventIds(Visible(log, a, b)))
  {
    var all := log + [x];
    LastIsFirstSeenIff(log, x, a, b);
    assert forall k :: 0 <= k < |log| ==> all[k] == log[k];
    if k: nat :| FirstSeenAt(all, a, b, k) && all[k] == e {
      if k < |log| {
        FirstSeenAtOneMore(log, x, a, b, k);
      }
    }
    if k: nat :| FirstSeenAt(log, a, b, k) && log[k] == e {
      FirstSeenAtOneMore(log, x, a, b, k);
      assert FirstSeenAt(all, a, b, k) && all[k] == e;
    }
    assert all[|log|] == x;
  }

  lemma {:induction false} VisibleFirstIs(log: seq<Created>, a: int, b: int, e: Created)
    ensures IsFirst(Visible(log, a, b), e) <==> FirstSeen(log, a, b, e)
  {
    if log != [] {
      var n := |log| - 1;
      var seen := Visible(log[..n], a, b);
      VisibleFirstIs(log[..n], a, b, e);
      FirstSeenOneMore(log[..n], log[n], a, b, e);
      FirstOfOneMore(seen, log[n], e);
      assert log == log[..n] + [log[n]] && seen + [] == seen;
    }
  }

  /** After a refresh that goes through, a stored record is made from the earliest creation event of its id
      in the look-back window; without one it is the stored record, renewed. */
  lemma RefreshStoresRightRecords(view: View, log: seq<Created>, prior: seq<Proposal>, head: int, tip: int, p: Proposal)
    requires var stored := Refreshed(view, prior, Visible(log, head - LOOK_BACK, tip), head);
      stored.Some? && p in stored.value
    ensures if exists e :: e in log && e.id == p.id && head - LOOK_BACK <= e.block <= tip
            then exists e :: FirstSeen(log, head - LOOK_BACK, tip, e) && MadeFrom(view, e, p)
            else exists q :: q in prior && RenewedFrom(view, q, p)
  {
    var seen := Visible(log, head - LOOK_BACK, tip);
    RefreshedIsMerge(view, prior, seen, head);
    MergeStoresRightRecords(view, prior, seen);
    VisibleIds(log, head - LOOK_BACK, tip, p.id);
    if p.id in EventIds(seen) {
      var e :| e in seen && IsFirst(seen, e) && MadeFrom(view, e, p);
      VisibleFirstIs(log, head - LOOK_BACK, tip, e);
    }
  }

  lemma RefreshedIsMerge(view: View, prior: seq<Proposal>, events: seq<Created>, head: int)
    requires Refreshed(view, prior, events, head).Some?
    ensures Merge(view, prior, events) == Refreshed(view, prior, events, head)
  {
  }

  lemma RefreshedIsUnion(view: View, prior: seq<Proposal>, events: seq<Created>, head: int)
    requires Refreshed(view, prior, events, head).Some?
    ensures var stored := Refreshed(view, prior, events, head).value;
      Ids(stored) == Ids(prior) + EventIds(events) && (DistinctIds(prior) ==> DistinctIds(stored))
  {
    MergeIsUnion(view, prior, events);
  }

  /** Everything a new record needs is answered. */
  predicate Makeable(view: View, e: Created) {
    && e.callDatas != [] && view.decode(e.callDatas[0]).Some?
    && view.core(e.id).Some? && view.state(e.id).Some? && view.votes(e.id).Some?
  }

  predicate AllFreshReadable(view: View, events: seq<Created>) {
    forall e :: e in events && IsFirst(events, e) ==> Makeable(view, e)
  }

  /** Once the contract has answered for a stored record, the rest must be answered too. */
  predicate AllOthersReadable(view: View, prior: seq<Proposal>, events: seq<Created>) {
    forall p :: p in prior && p.id !in EventIds(events) && view.core(p.id).Some? ==>
      view.state(p.id).Some? && view.votes(p.id).Some?
  }

  lemma MakeableIs(view: View, e: Created)
    ensures FreshRecord(view, e).Some? <==> Makeable(view, e)
  {
  }

  lemma RenewableIs(view: View, p: Proposal)
    ensures UpdatedRecord(view, p).Some? <==> (view.core(p.id).Some? ==> view.state(p.id).Some? && view.votes(p.id).Some?)
  {
  }

  lemma FreshReadableIff(view: View, events: seq<Created>)
    ensures FreshRecords(view, events).Some? <==> AllFreshReadable(view, events)
  {
    var firsts := FirstPerId(events);
    FreshAllShape(view, firsts);
    forall e
      ensures e in firsts <==> IsFirst(events, e)
    {
      IsFirstStored(events, e);
    }
    forall e
      ensures FreshRecord(view, e).Some? <==> Makeable(view, e)
    {
      MakeableIs(view, e);
    }
    assert (forall k :: 0 <= k < |firsts| ==> FreshRecord(view, firsts[k]).Some?) <==>
      forall e :: e in firsts ==> FreshRecord(view, e).Some?;
  }

  lemma OthersReadableIff(view: View, prior: seq<Proposal>, events: seq<Created>)
    requires FreshRecords(view, events).Some?
    ensures UpdatedRecords(view, Retained(prior, FreshRecords(view, events).value)).Some?
       <==> AllOthersReadable(view, prior, events)
  {
    var news := FreshRecords(view, events).value;
    var kept := Retained(prior, news);
    UpdatedRecordsReadable(view, kept);
    FreshRecordsShape(view, events);
    forall p
      ensures p in kept <==> p in prior && p.id !in EventIds(events)
    {
      RetainedMembers(prior, news, p);
    }
    forall p
      ensures UpdatedRecord(view, p).Some? <==> (view.core(p.id).Some? ==> view.state(p.id).Some? && view.votes(p.id).Some?)
    {
      RenewableIs(view, p);
    }
    assert (forall k :: 0 <= k < |kept| ==> UpdatedRecord(view, kept[k]).Some?) <==>
      forall p :: p in kept ==> UpdatedRecord(view, p).Some?;
  }

  lemma MergeSucceedsIff(view: View, prior: seq<Proposal>, events: seq<Created>)
    ensures Merge(view, prior, events).Some? <==> AllFreshReadable(view, events) && AllOthersReadable(view, prior, events)
  {
    FreshReadableIff(view, events);
    if FreshRecords(view, events).Some? {
      OthersReadableIff(view, prior, events);
    }
  }

  lemma LookupsOverIds(view: View, ps: seq<Proposal>, head: int)
    ensures AllLookupsAnswer(IdList(ps), view.rewards, head, view.account)
       <==> forall id :: id in Ids(ps) ==> !Unanswered(view.rewards, head, id, view.account)
  {
    var ids := IdList(ps);
    forall id
      ensures Lookup(view.rewards, head, id, view.account).Some? <==> !Unanswered(view.rewards, head, id, view.account)
    {
      LookupFailsIff(view.rewards, head, id, view.account);
    }
    assert forall k :: 0 <= k < |ps| ==> ids[k] == ps[k].id && ids[k] in Ids(ps);
    if AllLookupsAnswer(ids, view.rewards, head, view.account) {
      forall id | id in Ids(ps)
        ensures !Unanswered(view.rewards, head, id, view.account)
      {
        var k :| 0 <= k < |ps| && ps[k].id == id;
        assert Lookup(view.rewards, head, ids[k], view.account).Some?;
      }
    }
  }

  /** A refresh goes through exactly when every first creation event in the window can be decoded and
      answered for, every other stored proposal the contract knows can be answered for, no reward lookup
      for either fails, and its remaining calls answer. */
  lemma RefreshGoesThroughIff(view: View, prior: seq<Proposal>, events: seq<Created>, head: int)
    ensures Refreshed(view, prior, events, head).Some? <==>
      && view.answers && view.saves
      && AllFreshReadable(view, events) && AllOthersReadable(view, prior, events)
      && forall id :: id in Ids(prior) + EventIds(events) ==> !Unanswered(view.rewards, head, id, view.account)
  {
    MergeSucceedsIff(view, prior, events);
    if Merge(view, prior, events).Some? {
      var merged := Merge(view, prior, events).value;
      MergeIsUnion(view, prior, events);
      LookupsOverIds(view, merged, head);
      assert Ids(merged) == Ids(prior) + EventIds(events);
    }
  }

  // ---- Concurrent refreshes ----

  /** A client's list in the making. `upTo` marks the block up to which a list is known to hold every
      proposal (see `Covers`), `seen` counts the saves before the load; a list ready to be saved remembers
      the list it was made from and the window it read. */
  datatype Phase =
    | Idle
    | Loaded(list: seq<Proposal>, upTo: int, seen: nat)
    | Ready(list: seq<Proposal>, upTo: int, seen: nat, loaded: seq<Proposal>, head: int, tip: int)

  /** `saves` counts the saves so far. */
  datatype State = State(store: seq<Proposal>, upTo: int, saves: nat, phases: seq<Phase>)

  /** A client loads the stored list, queries the chain and merges, saves, or fails; then it may start
      over. */
  datatype Event = Load(client: nat) | Query(client: nat, head: int, tip: int, view: View) | Save(client: nat) | Fail(client: nat)

  function Max(a: int, b: int): int { if a >= b then a else b }

  /** A query merges the loaded list with the events seen, or ends the refresh. */
  function Queried(log: seq<Created>, p: Phase, head: int, tip: int, view: View): Phase
    requires p.Loaded?
  {
    match Refreshed(view, p.list, Visible(log, head - LOOK_BACK, tip), head)
    case None => Idle
    case Some(merged) => Ready(merged, Max(p.upTo, tip), p.seen, p.list, head, tip)
  }

  function NextPhase(log: seq<Created>, s: State, p: Phase, e: Event): Phase {
    match e
    case Load(_) => if p.Idle? then Loaded(s.store, s.upTo, s.saves) else p
    case Query(_, head, tip, view) => if p.Loaded? then Queried(log, p, head, tip, view) else p
    case Save(_) => if p.Ready? then Idle else p
    case Fail(_) => Idle
  }

  predicate CanSave(s: State, e: Event) {
    e.Save? && e.client < |s.phases| && s.phases[e.client].Ready?
  }

  function Step(log: seq<Created>, s: State, e: Event): State {
    var c := e.client;
    if c >= |s.phases| then s
    else
      var p := s.phases[c];
      var phases := s.phases[c := NextPhase(log, s, p, e)];
      if CanSave(s, e) then State(p.list, p.upTo, s.saves + 1, phases) else s.(phases := phases)
  }

  function Run(log: seq<Created>, start: State, events: seq<Event>): State {
    if events == [] then start
    else Step(log, Run(log, start, events[..|events| - 1]), events[|events| - 1])
  }

  /** The state after the first `i` events. */
  function At(log: seq<Created>, start: State, events: seq<Event>, i: nat): State
    requires i <= |events|
  {
    Run(log, start, events[..i])
  }

  lemma AtNext(log: seq<Created>, start: State, events: seq<Event>, i: nat)
    requires i < |events|
    ensures At(log, start, events, i + 1) == Step(log, At(log, start, events, i), events[i])
  {
    assert events[..i + 1][..i] == events[..i];
  }

  lemma {:induction false} VisibleIds(log: seq<Created>, a: int, b: int, id: string)
    ensures id in EventIds(Visible(log, a, b)) <==> exists e :: e in log && e.id == id && a <= e.block <= b
  {
    if log != [] {
      var n := |log| - 1;
      var seen := Visible(log[..n], a, b);
      VisibleIds(log[..n], a, b, id);
      EventIdsOfOneMore(seen, log[n]);
      assert log == log[..n] + [log[n]] && seen + [] == seen;
      if a <= log[n].block <= b && log[n].id == id {
        assert log[n] in log;
      }
    }
  }

  /** Every proposal created in the blocks `base` to `upTo` is in the list. */
  predicate Covers(log: seq<Created>, base: int, upTo: int, list: seq<Proposal>) {
    forall e :: e in log && base <= e.block <= upTo ==> e.id in Ids(list)
  }

  /** No duplicate, none of the initial ids lost, no id that was neither stored nor created. */
  predicate Sane(log: seq<Created>, initial: seq<Proposal>, list: seq<Proposal>) {
    DistinctIds(list) && Ids(initial) <= Ids(list) <= Ids(initial) + EventIds(log)
  }

  predicate SaneState(log: seq<Created>, initial: seq<Proposal>, s: State) {
    && Sane(log, initial, s.store)
    && forall c :: 0 <= c < |s.phases| ==> SanePhase(log, initial, s.phases[c])
  }

  predicate SanePhase(log: seq<Created>, initial: seq<Proposal>, p: Phase) {
    p.Idle? || Sane(log, initial, p.list)
  }

  lemma QueryKeepsSane(log: seq<Created>, initial: seq<Proposal>, p: Phase, head: int, tip: int, view: View)
    requires p.Loaded? && Sane(log, initial, p.list)
    ensures SanePhase(log, initial, Queried(log, p, head, tip, view))
  {
    var seen := Visible(log, head - LOOK_BACK, tip);
    if Refreshed(view, p.list, seen, head).Some? {
      RefreshedIsUnion(view, p.list, seen, head);
      forall id | id in EventIds(seen)
        ensures id in EventIds(log)
      {
        VisibleIds(log, head - LOOK_BACK, tip, id);
      }
    }
  }

  lemma StepKeepsSane(log: seq<Created>, initial: seq<Proposal>, s: State, e: Event)
    requires SaneState(log, initial, s)
    ensures SaneState(log, initial, Step(log, s, e))
  {
    if e.client < |s.phases| {
      var p := s.phases[e.client];
      assert SanePhase(log, initial, p);
      if e.Query? && p.Loaded? {
        QueryKeepsSane(log, initial, p, e.head, e.tip, e.view);
      }
      assert SanePhase(log, initial, NextPhase(log, s, p, e));
    }
  }

  /** However any number of refreshes interleave, also with failures, the store never holds a
      duplicate id, never loses an initial one and never holds one that was not created. */
  lemma {:induction false} InterleavedRefreshesStaySane(log: seq<Created>, initial: seq<Proposal>, start: State, events: seq<Event>)
    requires SaneState(log, initial, start)
    ensures SaneState(log, initial, Run(log, start, events))
  {
    if events != [] {
      var n := |events| - 1;
      InterleavedRefreshesStaySane(log, initial, start, events[..n]);
      StepKeepsSane(log, initial, Run(log, start, events[..n]), events[n]);
    }
  }

  // ---- When a save drops proposals ----

  /** The ids with a creation event in the window from 1000 blocks before a head to a tip. */
  function WindowIds(log: seq<Created>, head: int, tip: int): set<string> {
    EventIds(Visible(log, head - LOOK_BACK, tip))
  }

  /** What a client's phase knows about the store it loaded. */
  predicate PhaseInv(log: seq<Created>, s: State, p: Phase) {
    match p
    case Idle => true
    case Loaded(list, _, seen) => seen <= s.saves && (seen == s.saves ==> list == s.store)
    case Ready(list, _, seen, loaded, head, tip) =>
      && seen <= s.saves && (seen == s.saves ==> loaded == s.store)
      && Ids(list) == Ids(loaded) + WindowIds(log, head, tip)
  }

  predicate StateInv(log: seq<Created>, s: State) {
    forall c :: 0 <= c < |s.phases| ==> PhaseInv(log, s, s.phases[c])
  }

  lemma QueryKeepsInv(log: seq<Created>, s: State, p: Phase, head: int, tip: int, view: View)
    requires p.Loaded? && PhaseInv(log, s, p)
    ensures PhaseInv(log, s, Queried(log, p, head, tip, view))
  {
    var seen := Visible(log, head - LOOK_BACK, tip);
    if Refreshed(view, p.list, seen, head).Some? {
      RefreshedIsUnion(view, p.list, seen, head);
    }
  }

  lemma StepKeepsInv(log: seq<Created>, s: State, e: Event)
    requires StateInv(log, s)
    ensures StateInv(log, Step(log, s, e))
  {
    if e.client < |s.phases| {
      var p := s.phases[e.client];
      assert PhaseInv(log, s, p);
      if e.Query? && p.Loaded? {
        QueryKeepsInv(log, s, p, e.head, e.tip, e.view);
      }
      assert PhaseInv(log, s, NextPhase(log, s, p, e));
    }
  }

  lemma {:induction false} RunKeepsInv(log: seq<Created>, start: State, events: seq<Event>)
    requires StateInv(log, start)
    ensures StateInv(log, Run(log, start, events))
  {
    if events != [] {
      var n := |events| - 1;
      RunKeepsInv(log, start, events[..n]);
      StepKeepsInv(log, Run(log, start, events[..n]), events[n]);
    }
  }

  predicate CreatedWithin(log: seq<Created>, id: string, head: int, tip: int) {
    exists e :: e in log && e.id == id && head - LOOK_BACK <= e.block <= tip
  }

  /** The save overwrites a stored id that its client had neither loaded nor seen created in its
      window. */
  predicate Drops(log: seq<Created>, s: State, e: Event) {
    CanSave(s, e) &&
    var p := s.phases[e.client];
    exists id :: id in Ids(s.store) && id !in Ids(p.loaded) && !CreatedWithin(log, id, p.head, p.tip)
  }

  /** Per step: every stored id is kept exactly when the step is not such a save. */
  lemma StepDropsIff(log: seq<Created>, s: State, e: Event)
    requires StateInv(log, s)
    ensures Ids(s.store) <= Ids(Step(log, s, e).store) <==> !Drops(log, s, e)
  {
    if CanSave(s, e) {
      var p := s.phases[e.client];
      assert PhaseInv(log, s, p);
      forall id
        ensures id in Ids(p.list) <==> id in Ids(p.loaded) || CreatedWithin(log, id, p.head, p.tip)
      {
        VisibleIds(log, p.head - LOOK_BACK, p.tip, id);
      }
    }
  }

  lemma {:induction false} StoresGrow(log: seq<Created>, start: State, events: seq<Event>, i: nat, j: nat)
    requires i <= j <= |events| && StateInv(log, start)
    requires forall k :: 0 <= k < |events| ==> !Drops(log, At(log, start, events, k), events[k])
    ensures Ids(At(log, start, events, i).store) <= Ids(At(log, start, events, j).store)
  {
    if i < j {
      StoresGrow(log, start, events, i, j - 1);
      RunKeepsInv(log, start, events[..j - 1]);
      AtNext(log, start, events, j - 1);
      StepDropsIff(log, At(log, start, events, j - 1), events[j - 1]);
    }
  }

  lemma DropShrinks(log: seq<Created>, start: State, events: seq<Event>, k: nat)
    requires k < |events| && StateInv(log, start) && Drops(log, At(log, start, events, k), events[k])
    ensures !(Ids(At(log, start, events, k).store) <= Ids(At(log, start, events, k + 1).store))
  {
    RunKeepsInv(log, start, events[..k]);
    AtNext(log, start, events, k);
    StepDropsIff(log, At(log, start, events, k), events[k]);
  }

  /** Over any interleaving, an id that is once stored stays stored, if and only if no save drops one: a
      save loses exactly the stored ids that its client neither had loaded nor saw created in its
      window. */
  lemma StoredStaysStoredIff(log: seq<Created>, start: State, events: seq<Event>)
    requires StateInv(log, start)
    ensures (forall i, j :: 0 <= i <= j <= |events| ==>
               Ids(At(log, start, events, i).store) <= Ids(At(log, start, events, j).store))
       <==> (forall k :: 0 <= k < |events| ==> !Drops(log, At(log, start, events, k), events[k]))
  {
    if forall i, j :: 0 <= i <= j <= |events| ==>
        Ids(At(log, start, events, i).store) <= Ids(At(log, start, events, j).store) {
      forall k | 0 <= k < |events|
        ensures !Drops(log, At(log, start, events, k), events[k])
      {
        if Drops(log, At(log, start, events, k), events[k]) {
          DropShrinks(log, start, events, k);
        }
      }
    }
    if forall k :: 0 <= k < |events| ==> !Drops(log, At(log, start, events, k), events[k]) {
      forall i, j | 0 <= i <= j <= |events|
        ensures Ids(At(log, start, events, i).store) <= Ids(At(log, start, events, j).store)
      {
        StoresGrow(log, start, events, i, j);
      }
    }
  }

  /** In particular a save drops nothing when no other save came after its load. */
  lemma UndisturbedSaveDropsNothing(log: seq<Created>, start: State, events: seq<Event>, e: Event)
    requires StateInv(log, start)
    requires var s := Run(log, start, events); CanSave(s, e) && s.phases[e.client].seen == s.saves
    ensures !Drops(log, Run(log, start, events), e)
  {
    RunKeepsInv(log, start, events);
    assert PhaseInv(log, Run(log, start, events), Run(log, start, events).phases[e.client]);
  }

  /** The state after client `c` has loaded and queried at a block. */
  function LoadedAndQueried(log: seq<Created>, s: State, c: nat, block: int, view: View): State {
    Step(log, Step(log, s, Load(c)), Query(c, block, block, view))
  }

  lemma LoadAndQuery(log: seq<Created>, s: State, c: nat, block: int, view: View)
    requires c < |s.phases| && s.phases[c].Idle?
    requires Refreshed(view, s.store, Visible(log, block - LOOK_BACK, block), block).Some?
    ensures var t := LoadedAndQueried(log, s, c, block, view);
      && |t.phases| == |s.phases| && (forall d :: 0 <= d < |s.phases| && d != c ==> t.phases[d] == s.phases[d])
      && t.phases[c].Ready? && Ids(t.phases[c].list) == Ids(s.store) + WindowIds(log, block, block)
      && t.store == s.store
  {
    RefreshedIsUnion(view, s.store, Visible(log, block - LOOK_BACK, block), block);
  }

  lemma SaveStores(log: seq<Created>, s: State, c: nat)
    requires c < |s.phases| && s.phases[c].Ready?
    ensures var t := Step(log, s, Save(c));
      && t.store == s.phases[c].list && |t.phases| == |s.phases|
      && forall d :: 0 <= d < |s.phases| && d != c ==> t.phases[d] == s.phases[d]
  {
  }

  lemma SlowFindsNothing(e: Created, view: View, s: State)
    requires Refreshed(view, [], [], e.block - 1).Some?
    requires |s.phases| == 2 && s.phases[0].Idle? && s.phases[1].Idle? && s.store == []
    ensures var t := LoadedAndQueried([e], s, 0, e.block - 1, view);
      |t.phases| == 2 && t.phases[0].Ready? && t.phases[0].list == [] && t.phases[1].Idle? && t.store == []
  {
    VisibleOfOne(e, e.block - 1 - LOOK_BACK, e.block - 1);
    LoadAndQuery([e], s, 0, e.block - 1, view);
    EmptyIffNoIds(LoadedAndQueried([e], s, 0, e.block - 1, view).phases[0].list);
  }

  lemma OwnBlockSeen(e: Created)
    ensures Visible([e], e.block - LOOK_BACK, e.block) == [e] && e.id in WindowIds([e], e.block, e.block)
  {
    VisibleOfOne(e, e.block - LOOK_BACK, e.block);
    assert [e][0].id in EventIds([e]);
  }

  lemma FastFindsOne(e: Created, view: View, s: State)
    requires Refreshed(view, [], [e], e.block).Some?
    requires |s.phases| == 2 && s.phases[1].Idle? && s.store == []
    ensures var t := LoadedAndQueried([e], s, 1, e.block, view);
      |t.phases| == 2 && t.phases[0] == s.phases[0] && t.phases[1].Ready? && e.id in Ids(t.phases[1].list)
  {
    OwnBlockSeen(e);
    LoadAndQuery([e], s, 1, e.block, view);
  }

  lemma SavesInTurn(log: seq<Created>, s: State)
    requires |s.phases| == 2 && s.phases[0].Ready? && s.phases[1].Ready?
    ensures var saved := Step(log, s, Save(1));
      saved.store == s.phases[1].list && Step(log, saved, Save(0)).store == s.phases[0].list
  {
    SaveStores(log, s, 1);
    SaveStores(log, Step(log, s, Save(1)), 0);
  }

  /** The condition can fail: from an empty store, a slow refresh that queried before a creation and saves
      after a faster one drops the proposal the faster one had stored. */
  lemma StaleSaveDropsNewId(e: Created, view: View, start: State, slow: State, both: State)
    requires Refreshed(view, [], [], e.block - 1).Some? && Refreshed(view, [], [e], e.block).Some?
    requires |start.phases| == 2 && start.phases[0].Idle? && start.phases[1].Idle? && start.store == []
    requires slow == LoadedAndQueried([e], start, 0, e.block - 1, view)
    requires both == LoadedAndQueried([e], slow, 1, e.block, view)
    ensures var saved := Step([e], both, Save(1));
      e.id in Ids(saved.store) && Step([e], saved, Save(0)).store == []
  {
    SlowFindsNothing(e, view, start);
    FastFindsOne(e, view, slow);
    SavesInTurn([e], both);
  }

  lemma VisibleOfOne(e: Created, a: int, b: int)
    ensures Visible([e], a, b) == if a <= e.block <= b then [e] else []
  {
    assert Visible([e][..0], a, b) == [];
  }

  lemma EmptyIffNoIds(ps: seq<Proposal>)
    ensures ps == [] <==> Ids(ps) == {}
  {
    if ps != [] {
      assert ps[0].id in Ids(ps);
    }
  }

  // ---- Coverage under concurrency ----

  /** The queried window adjoins what the client's loaded list covers. */
  predicate Adjoins(s: State, e: Event) {
    e.Query? && e.client < |s.phases| && s.phases[e.client].Loaded? ==>
      e.head - LOOK_BACK <= s.phases[e.client].upTo + 1
  }

  predicate AlwaysAdjoins(log: seq<Created>, start: State, events: seq<Event>) {
    events == [] ||
    var n := |events| - 1;
    AlwaysAdjoins(log, start, events[..n]) && Adjoins(Run(log, start, events[..n]), events[n])
  }

  predicate CoversPhase(log: seq<Created>, base: int, p: Phase) {
    p.Idle? || Covers(log, base, p.upTo, p.list)
  }

  predicate CoversState(log: seq<Created>, base: int, s: State) {
    && Covers(log, base, s.upTo, s.store)
    && forall c :: 0 <= c < |s.phases| ==> CoversPhase(log, base, s.phases[c])
  }

  lemma QueryExtendsCover(log: seq<Created>, base: int, p: Phase, head: int, tip: int, view: View)
    requires p.Loaded? && Covers(log, base, p.upTo, p.list) && head - LOOK_BACK <= p.upTo + 1
    ensures CoversPhase(log, base, Queried(log, p, head, tip, view))
  {
    var seen := Visible(log, head - LOOK_BACK, tip);
    if Refreshed(view, p.list, seen, head).Some? {
      RefreshedIsUnion(view, p.list, seen, head);
      forall e | e in log && base <= e.block <= Max(p.upTo, tip)
        ensures e.id in Ids(p.list) + EventIds(seen)
      {
        if e.block > p.upTo {
          VisibleIds(log, head - LOOK_BACK, tip, e.id);
        }
      }
    }
  }

  lemma StepKeepsCover(log: seq<Created>, base: int, s: State, e: Event)
    requires CoversState(log, base, s) && Adjoins(s, e)
    ensures CoversState(log, base, Step(log, s, e))
  {
    if e.client < |s.phases| {
      var p := s.phases[e.client];
      assert CoversPhase(log, base, p);
      if e.Query? && p.Loaded? {
        QueryExtendsCover(log, base, p, e.head, e.tip, e.view);
      }
      assert CoversPhase(log, base, NextPhase(log, s, p, e));
    }
  }

  /** Coverage under concurrency: if no refresh lets the 1000-block window run ahead of the list it
      loaded, every list held anywhere contains every proposal created up to its own mark. */
  lemma {:induction false} InterleavedCoverage(log: seq<Created>, base: int, start: State, events: seq<Event>)
    requires CoversState(log, base, start) && AlwaysAdjoins(log, start, events)
    ensures CoversState(log, base, Run(log, start, events))
  {
    if events != [] {
      var n := |events| - 1;
      InterleavedCoverage(log, base, start, events[..n]);
      StepKeepsCover(log, base, Run(log, start, events[..n]), events[n]);
    }
  }

  // ---- Serial runs ----

  datatype Refresh = Refresh(head: int, tip: int, view: View)

  function AfterRefresh(log: seq<Created>, store: seq<Proposal>, r: Refresh): Option<seq<Proposal>> {
    Refreshed(r.view, store, Visible(log, r.head - LOOK_BACK, r.tip), r.head)
  }

  /** The store after refreshes one after the other; a failing one leaves it as it is. */
  function Serial(log: seq<Created>, store: seq<Proposal>, rs: seq<Refresh>): seq<Proposal> {
    if rs == [] then store
    else
      var before := Serial(log, store, rs[..|rs| - 1]);
      var after := AfterRefresh(log, before, rs[|rs| - 1]);
      if after.Some? then after.value else before
  }

  /** The refreshes that went through. */
  function Successes(log: seq<Created>, store: seq<Proposal>, rs: seq<Refresh>): seq<Refresh> {
    if rs == [] then []
    else
      var n := |rs| - 1;
      Successes(log, store, rs[..n]) + if AfterRefresh(log, Serial(log, store, rs[..n]), rs[n]).Some? then [rs[n]] else []
  }

  lemma RefreshedIds(log: seq<Created>, store: seq<Proposal>, r: Refresh)
    requires AfterRefresh(log, store, r).Some?
    ensures Ids(AfterRefresh(log, store, r).value) == Ids(store) + WindowIds(log, r.head, r.tip)
  {
    var seen := Visible(log, r.head - LOOK_BACK, r.tip);
    assert AfterRefresh(log, store, r) == Refreshed(r.view, store, seen, r.head) && WindowIds(log, r.head, r.tip) == EventIds(seen);
    RefreshedIsUnion(r.view, store, seen, r.head);
  }

  /** One refresh of a serial run, on ids: it goes through and adds its window, or changes nothing. */
  lemma SerialStep(log: seq<Created>, store: seq<Proposal>, rs: seq<Refresh>) returns (through: bool)
    requires rs != []
    ensures var n := |rs| - 1;
      if through then
        && Ids(Serial(log, store, rs)) == Ids(Serial(log, store, rs[..n])) + WindowIds(log, rs[n].head, rs[n].tip)
        && Successes(log, store, rs) == Successes(log, store, rs[..n]) + [rs[n]]
      else
        && Serial(log, store, rs) == Serial(log, store, rs[..n])
        && Successes(log, store, rs) == Successes(log, store, rs[..n])
  {
    var n := |rs| - 1;
    var before := Serial(log, store, rs[..n]);
    through := AfterRefresh(log, before, rs[n]).Some?;
    if through {
      RefreshedIds(log, before, rs[n]);
    } else {
      assert Successes(log, store, rs[..n]) + [] == Successes(log, store, rs[..n]);
    }
  }

  predicate Reads(r: Refresh, block: int) { r.head - LOOK_BACK <= block <= r.tip }

  predicate Seen(rs: seq<Refresh>, block: int) {
    exists k :: 0 <= k < |rs| && Reads(rs[k], block)
  }

  lemma SeenOneMore(rs: seq<Refresh>, r: Refresh, block: int)
    ensures Seen(rs + [r], block) <==> Seen(rs, block) || Reads(r, block)
  {
    var all := rs + [r];
    assert all[|rs|] == r && forall k :: 0 <= k < |rs| ==> all[k] == rs[k];
  }

  predicate CreatedSeen(log: seq<Created>, rs: seq<Refresh>, id: string) {
    exists e :: e in log && e.id == id && Seen(rs, e.block)
  }

  lemma CreatedSeenOneMore(log: seq<Created>, rs: seq<Refresh>, r: Refresh, id: string)
    ensures CreatedSeen(log, rs + [r], id) <==>
      CreatedSeen(log, rs, id) || id in WindowIds(log, r.head, r.tip)
  {
    VisibleIds(log, r.head - LOOK_BACK, r.tip, id);
    forall e | e in log
      ensures Seen(rs + [r], e.block) <==> Seen(rs, e.block) || Reads(r, e.block)
    {
      SeenOneMore(rs, r, e.block);
    }
  }

  /** After any serial run the store holds exactly the initial ids and the ids with a creation event
      in the window of some refresh that went through. */
  lemma {:induction false} SerialStoreIsExact(log: seq<Created>, store: seq<Proposal>, rs: seq<Refresh>, id: string)
    ensures id in Ids(Serial(log, store, rs)) <==> id in Ids(store) || CreatedSeen(log, Successes(log, store, rs), id)
  {
    if rs != [] {
      var n := |rs| - 1;
      SerialStoreIsExact(log, store, rs[..n], id);
      CreatedSeenOneMore(log, Successes(log, store, rs[..n]), rs[n], id);
      var _ := SerialStep(log, store, rs);
    }
  }

  /** Heads only grow, and a query sees at least its own head. */
  predicate Forward(rs: seq<Refresh>) {
    && (forall k :: 0 <= k < |rs| ==> rs[k].head <= rs[k].tip)
    && (forall i, j :: 0 <= i < j < |rs| ==> rs[i].head <= rs[j].head && rs[i].tip <= rs[j].tip)
  }

  /** Consecutive heads are at most 1001 blocks after the previous tip. */
  predicate NoGap(rs: seq<Refresh>) {
    forall i, j :: 0 <= i && j == i + 1 < |rs| ==> rs[j].head <= rs[i].tip + LOOK_BACK + 1
  }

  lemma {:induction false} WindowsReach(rs: seq<Refresh>, block: int)
    requires rs != [] && Forward(rs) && NoGap(rs)
    requires rs[0].head - LOOK_BACK <= block <= rs[|rs| - 1].tip
    ensures Seen(rs, block)
  {
    var n := |rs| - 1;
    if Reads(rs[n], block) {
    } else if n > 0 {
      assert block <= rs[n - 1].tip;
      WindowsReach(rs[..n], block);
      var k :| 0 <= k < n && Reads(rs[..n][k], block);
      assert Reads(rs[k], block);
    }
  }

  /** The windows of a serial run cover every block from the first window to the last tip exactly
      when no head is more than 1001 blocks after the previous tip. */
  lemma WindowsCoverIffNoGap(rs: seq<Refresh>)
    requires rs != [] && Forward(rs)
    ensures (forall block :: rs[0].head - LOOK_BACK <= block <= rs[|rs| - 1].tip ==> Seen(rs, block)) <==> NoGap(rs)
  {
    if NoGap(rs) {
      forall block | rs[0].head - LOOK_BACK <= block <= rs[|rs| - 1].tip
        ensures Seen(rs, block)
      {
        WindowsReach(rs, block);
      }
    } else {
      var i, j :| 0 <= i && j == i + 1 < |rs| && !(rs[j].head <= rs[i].tip + LOOK_BACK + 1);
      GapIsUnseen(rs, i, rs[i].tip + 1);
      assert rs[0].head <= rs[i].head && rs[j].tip <= rs[|rs| - 1].tip;
    }
  }

  lemma GapIsUnseen(rs: seq<Refresh>, i: nat, block: int)
    requires Forward(rs) && i + 1 < |rs| && rs[i].tip < block < rs[i + 1].head - LOOK_BACK
    ensures !Seen(rs, block)
  {
    forall k | 0 <= k < |rs|
      ensures !Reads(rs[k], block)
    {
      assert k <= i ==> rs[k].tip <= rs[i].tip;
      assert k > i ==> rs[i + 1].head <= rs[k].head;
    }
  }

  lemma CreatedSeenIffInSpan(log: seq<Created>, rs: seq<Refresh>, id: string)
    requires rs != [] && Forward(rs) && NoGap(rs)
    ensures CreatedSeen(log, rs, id) <==> id in EventIds(Visible(log, rs[0].head - LOOK_BACK, rs[|rs| - 1].tip))
  {
    var lo, hi := rs[0].head - LOOK_BACK, rs[|rs| - 1].tip;
    VisibleIds(log, lo, hi, id);
    forall e | e in log
      ensures Seen(rs, e.block) <==> lo <= e.block <= hi
    {
      if lo <= e.block <= hi {
        WindowsReach(rs, e.block);
      }
    }
  }

  lemma SerialCoverageOf(log: seq<Created>, store: seq<Proposal>, rs: seq<Refresh>, done: seq<Refresh>, id: string)
    requires done == Successes(log, store, rs) && done != [] && Forward(done) && NoGap(done)
    ensures id in Ids(Serial(log, store, rs)) <==>
      id in Ids(store) || id in EventIds(Visible(log, done[0].head - LOOK_BACK, done[|done| - 1].tip))
  {
    SerialStoreIsExact(log, store, rs, id);
    CreatedSeenIffInSpan(log, done, id);
  }

  /** Sliding-window coverage: when the refreshes that go through leave no gap, the store holds exactly
      the initial ids and every id created from 1000 blocks before the first head to the last tip. */
  lemma SerialCoverage(log: seq<Created>, store: seq<Proposal>, rs: seq<Refresh>, done: seq<Refresh>)
    requires done == Successes(log, store, rs) && done != [] && Forward(done) && NoGap(done)
    ensures Ids(Serial(log, store, rs)) ==
      Ids(store) + EventIds(Visible(log, done[0].head - LOOK_BACK, done[|done| - 1].tip))
  {
    var span := EventIds(Visible(log, done[0].head - LOOK_BACK, done[|done| - 1].tip));
    forall id
      ensures id in Ids(Serial(log, store, rs)) <==> id in Ids(store) + span
    {
      SerialCoverageOf(log, store, rs, done, id);
    }
  }

  /** A proposal created in a gap between two refreshes is missed, and stays missed. */
  lemma GapLosesProposal(log: seq<Created>, store: seq<Proposal>, rs: seq<Refresh>, i: nat, e: Created)
    requires var done := Successes(log, store, rs);
      Forward(done) && i + 1 < |done| && done[i].tip < e.block < done[i + 1].head - LOOK_BACK
    requires e in log && e.id !in Ids(store) && forall f :: f in log && f.id == e.id ==> f == e
    ensures e.id !in Ids(Serial(log, store, rs))
  {
    SerialStoreIsExact(log, store, rs, e.id);
    GapIsUnseen(Successes(log, store, rs), i, e.block);
  }
}
