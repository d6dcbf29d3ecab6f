/**
 The shared list of proposals. A refresh loads the stored list, reads the creation events of the last
 1000 blocks, puts one news record per proposal in front of the updated remainder of the stored list,
 and overwrites the store. Any read may fail, which ends the refresh without storing.
 */
module ProposalStore {
  import opened Common
  import opened RewardLookup

  const FILECOIN_CALIBRATION: nat := 314159

  /** What creation fixes (the displayed link is made from `ipfsHash`), and what later refreshes update. */
  datatype Details = Details(name: string, ipfsHash: string, description: string,
                             targets: seq<string>, values: seq<nat>, callDatas: seq<string>, descriptionHash: string)
  datatype Live = Live(status: nat, voteCount: nat, votesFor: nat, votesAgainst: nat, abstainVotes: nat)
  datatype Proposal = Proposal(id: string, details: Details, live: Live, jobId: nat)

  datatype Created = Created(block: int, id: string, description: string,
                             targets: seq<string>, values: seq<nat>, callDatas: seq<string>, descriptionHash: string)

  /** Answers during one refresh; `None` is a failed call. `answers` says whether the block number and
      the creation events could be read, `saves` whether the final overwrite goes through. */
  datatype Adapter = Adapter(name: string, ipfsHash: string)
  datatype Core = Core(forVotes: nat, againstVotes: nat, abstainVotes: nat, bridgeId: nat)
  datatype View = View(decode: string -> Option<Adapter>, state: string -> Option<nat>,
                       core: string -> Option<Core>, votes: string -> Option<nat>,
                       rewards: Events, account: Address, answers: bool, saves: bool)

  // ---- The merge ----

  predicate HasEvent(events: seq<Created>, id: string) {
    exists k :: 0 <= k < |events| && events[k].id == id
  }

  /** The first event of each id, in order. */
  function FirstPerId(events: seq<Created>): seq<Created> {
    if events == [] then []
    else
      var n := |events| - 1;
      FirstPerId(events[..n]) + if HasEvent(events[..n], events[n].id) then [] else [events[n]]
  }

  function LiveOf(view: View, id: string, core: Core): Option<Live> {
    if view.state(id).Some? && view.votes(id).Some?
    then Some(Live(view.state(id).value, view.votes(id).value, core.forVotes, core.againstVotes, core.abstainVotes))
    else None
  }

  function FreshRecord(view: View, e: Created): Option<Proposal> {
    if e.callDatas == [] then None
    else
      match (view.decode(e.callDatas[0]), view.core(e.id))
      case (Some(adapter), Some(core)) =>
        var live := LiveOf(view, e.id, core);
        if live.None? then None
        else Some(Proposal(e.id,
                           Details(adapter.name, adapter.ipfsHash, e.description,
                                   e.targets, e.values, e.callDatas, e.descriptionHash),
                           live.value, core.bridgeId))
      case _ => None
  }

  /** A stored record whose creation event was not seen: kept as it is when the contract does not
      answer for it, otherwise updated; a failure after that answer fails the refresh. */
  function UpdatedRecord(view: View, p: Proposal): Option<Proposal> {
    match view.core(p.id)
    case None => Some(p)
    case Some(core) =>
      var live := LiveOf(view, p.id, core);
      if live.None? then None else Some(p.(live := live.value))
  }

  /** The records of all events, or a failure if one of them fails. */
  function FreshAll(view: View, es: seq<Created>): Option<seq<Proposal>> {
    if es == [] then Some([])
    else
      match (FreshAll(view, es[..|es| - 1]), FreshRecord(view, es[|es| - 1]))
      case (Some(ps), Some(p)) => Some(ps + [p])
      case _ => None
  }

  function FreshRecords(view: View, events: seq<Created>): Option<seq<Proposal>> {
    FreshAll(view, FirstPerId(events))
  }

  predicate HasId(ps: seq<Proposal>, id: string) {
    exists k :: 0 <= k < |ps| && ps[k].id == id
  }

  function Retained(prior: seq<Proposal>, news: seq<Proposal>): seq<Proposal> {
    if prior == [] then []
    else
      var n := |prior| - 1;
      Retained(prior[..n], news) + if HasId(news, prior[n].id) then [] else [prior[n]]
  }

  function UpdatedRecords(view: View, ps: seq<Proposal>): Option<seq<Proposal>> {
    if ps == [] then Some([])
    else
      match (UpdatedRecords(view, ps[..|ps| - 1]), UpdatedRecord(view, ps[|ps| - 1]))
      case (Some(qs), Some(q)) => Some(qs + [q])
      case _ => None
  }

  function Merge(view: View, prior: seq<Proposal>, events: seq<Created>): Option<seq<Proposal>> {
    var news := FreshRecords(view, events);
    if news.None? then None
    else
      var updated := UpdatedRecords(view, Retained(prior, news.value));
      if updated.None? then None else Some(news.value + updated.value)
  }

  function IdList(ps: seq<Proposal>): seq<string> {
    seq(|ps|, k requires 0 <= k < |ps| => ps[k].id)
  }

  /** What a refresh stores: the merge, if the reward lookup of every proposal in it and all other calls
      go through. */
  function Refreshed(view: View, prior: seq<Proposal>, events: seq<Created>, head: int): Option<seq<Proposal>> {
    var merged := Merge(view, prior, events);
    if merged.Some? && view.answers && view.saves && AllLookupsAnswer(IdList(merged.value), view.rewards, head, view.account)
    then merged else None
  }

  /** The creation events of the blocks `a` to `b`. */
  function Visible(log: seq<Created>, a: int, b: int): seq<Created> {
    if log == [] then []
    else
      var n := |log| - 1;
      Visible(log[..n], a, b) + if a <= log[n].block <= b then [log[n]] else []
  }

  // ---- The refresh, on the shared document ----

  class ProposalTile {
    var data: Option<seq<Proposal>>

    constructor ()
      ensures Stored() == []
    {
      data := None;
    }

    function Stored(): seq<Proposal>
      reads this
    {
      if data.Some? then data.value else []
    }

    /** An undisturbed refresh. `head` is the block number read first, `tip` the latest block when the
        events are queried; `loads` says whether the stored list can be read; `shown` is what the page
        displays afterwards, if it changes. */
    method Refresh(loads: bool, connected: bool, chainId: nat, hasGovernor: bool,
                   view: View, log: seq<Created>, head: int, tip: int) returns (shown: Option<seq<Proposal>>)
      modifies this
      ensures !loads ==> shown == None && Stored() == old(Stored())
      ensures loads && !connected && chainId != 314159 ==> shown == Some(old(Stored())) && Stored() == old(Stored())
      ensures loads && (connected || chainId == 314159) && !hasGovernor ==> shown == None && Stored() == old(Stored())
      ensures loads && (connected || chainId == 314159) && hasGovernor ==>
        && shown == Refreshed(view, old(Stored()), Visible(log, head - LOOK_BACK, tip), head)
        && Stored() == if shown.Some? then shown.value else old(Stored())
    {
      if !loads {
        return None;
      }
      var oldProposals := Stored();
      if !connected && chainId != FILECOIN_CALIBRATION {
        return Some(oldProposals);
      }
      if !hasGovernor || !view.answers {
        return None;
      }
      var events := Visible(log, head - LOOK_BACK, tip);
      var news := FreshRecords(view, events);
      if news.None? {
        return None;
      }
      var proposals := news.value;
      var updated := UpdatedRecords(view, Retained(oldProposals, proposals));
      if updated.None? {
        return None;
      }
      proposals := proposals + updated.value;
      var rewards := FindRewards(IdList(proposals), view.rewards, head, view.account);
      if rewards.None? || !view.saves {
        return None;
      }
      data := Some(proposals);
      shown := Some(proposals);
    }
  }

  // ---- What a merge stores ----

  function Ids(ps: seq<Proposal>): set<string> {
    set k | 0 <= k < |ps| :: ps[k].id
  }

  function EventIds(events: seq<Created>): set<string> {
    set k | 0 <= k < |events| :: events[k].id
  }

  predicate DistinctIds(ps: seq<Proposal>) {
    forall i, j :: 0 <= i < j < |ps| ==> ps[i].id != ps[j].id
  }

  lemma IdsOfOneMore(ps: seq<Proposal>, p: Proposal)
    ensures Ids(ps + [p]) == Ids(ps) + {p.id}
  {
    var all := ps + [p];
    assert all[|ps|] == p && forall k :: 0 <= k < |ps| ==> all[k] == ps[k];
  }

  lemma EventIdsOfOneMore(es: seq<Created>, e: Created)
    ensures EventIds(es + [e]) == EventIds(es) + {e.id}
  {
    var all := es + [e];
    assert all[|es|] == e && forall k :: 0 <= k < |es| ==> all[k] == es[k];
  }

  lemma {:induction false} FirstPerIdShape(events: seq<Created>)
    ensures var firsts := FirstPerId(events);
      && EventIds(firsts) == EventIds(events)
      && (forall i, j :: 0 <= i < j < |firsts| ==> firsts[i].id != firsts[j].id)
      && (forall e :: e in firsts ==> IsFirst(events, e))
  {
    if events != [] {
      var n := |events| - 1;
      var firsts := FirstPerId(events[..n]);
      FirstPerIdShape(events[..n]);
      EventIdsOfOneMore(events[..n], events[n]);
      EventIdsOfOneMore(firsts, events[n]);
      assert events == events[..n] + [events[n]] && firsts + [] == firsts;
      forall e | e in firsts
        ensures IsFirst(events, e)
      {
        var k :| 0 <= k < n && events[..n][k] == e && forall j :: 0 <= j < k ==> events[..n][j].id != e.id;
        assert events[k] == e;
        assert forall j :: 0 <= j < k ==> events[j] == events[..n][j];
      }
      assert HasEvent(events[..n], events[n].id) <==> events[n].id in EventIds(events[..n]);
      if !HasEvent(events[..n], events[n].id) {
        assert IsFirst(events, events[n]);
        forall i | 0 <= i < |firsts|
          ensures firsts[i].id != events[n].id
        {
          assert firsts[i].id in EventIds(events[..n]);
        }
      }
    }
  }

  /** The event is the earliest of its id. */
  predicate IsFirst(events: seq<Created>, e: Created) {
    exists k :: 0 <= k < |events| && events[k] == e && forall j :: 0 <= j < k ==> events[j].id != e.id
  }

  lemma RetainedLast(prior: seq<Proposal>, news: seq<Proposal>)
    requires prior != []
    ensures var n := |prior| - 1;
      Retained(prior, news) ==
        if prior[n].id in Ids(news) then Retained(prior[..n], news) else Retained(prior[..n], news) + [prior[n]]
  {
    var n := |prior| - 1;
    assert HasId(news, prior[n].id) <==> prior[n].id in Ids(news);
    assert Retained(prior[..n], news) + [] == Retained(prior[..n], news);
  }

  lemma {:induction false} RetainedMembers(prior: seq<Proposal>, news: seq<Proposal>, p: Proposal)
    ensures p in Retained(prior, news) <==> p in prior && p.id !in Ids(news)
  {
    if prior != [] {
      var n := |prior| - 1;
      RetainedMembers(prior[..n], news, p);
      RetainedLast(prior, news);
      assert prior == prior[..n] + [prior[n]];
    }
  }

  lemma {:induction false} RetainedIds(prior: seq<Proposal>, news: seq<Proposal>)
    ensures Ids(Retained(prior, news)) == Ids(prior) - Ids(news)
  {
    if prior != [] {
      var n := |prior| - 1;
      RetainedIds(prior[..n], news);
      RetainedLast(prior, news);
      IdsOfOneMore(prior[..n], prior[n]);
      IdsOfOneMore(Retained(prior[..n], news), prior[n]);
      assert prior == prior[..n] + [prior[n]];
    }
  }

  lemma {:induction false} RetainedDistinct(prior: seq<Proposal>, news: seq<Proposal>)
    requires DistinctIds(prior)
    ensures DistinctIds(Retained(prior, news))
  {
    if prior != [] {
      var n := |prior| - 1;
      var kept := Retained(prior[..n], news);
      RetainedDistinct(prior[..n], news);
      RetainedLast(prior, news);
      forall i | 0 <= i < |kept|
        ensures kept[i].id != prior[n].id
      {
        RetainedMembers(prior[..n], news, kept[i]);
        var k :| 0 <= k < n && prior[..n][k] == kept[i];
      }
    }
  }
}
