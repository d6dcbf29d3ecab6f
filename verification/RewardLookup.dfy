/**
 What a refresh looks up as rewards: for each listed proposal the first result event in the look-back
 window, the account's entry in its published data, and whether a claim event is in the window. Each
 query may fail and each published datum may be unreadable; either ends the refresh.
 */
module RewardLookup {
  import opened Common
  import opened Tally

  /** How far back from the head the page reads events. */
  const LOOK_BACK: nat := 1000

  /** What published data has for an account: an amount and a proof, given by the list of the tree it was
      made from and the leaf it is for. */
  datatype Reward = Reward(amount: nat, list: seq<Entry>, leaf: nat)

  /** A result event, with the list its root commits to. Its data is `None` when it is not JSON with
      fields, and an account's entry is `None` when its amount is not a number. */
  datatype Updated = Updated(block: int, id: string, root: seq<Entry>, data: Option<map<Address, Option<Reward>>>)
  datatype Claimed = Claimed(block: int, id: string, account: Address)
  datatype Offer = Offer(reward: Reward, alreadyClaimed: bool)

  datatype Query = Results | Claims

  /** The chain's events, the latest block when each of the two queries is answered, and the queries
      that fail. */
  datatype Events = Events(updates: seq<Updated>, claims: seq<Claimed>, tip: int, claimTip: int,
                           fails: (string, Query) -> bool)

  predicate InWindow(u: Updated, id: string, from: int, to: int) {
    u.id == id && from <= u.block <= to
  }

  function UpdatesOf(updates: seq<Updated>, id: string, from: int, to: int): seq<Updated> {
    if updates == [] then []
    else
      var n := |updates| - 1;
      UpdatesOf(updates[..n], id, from, to) + if InWindow(updates[n], id, from, to) then [updates[n]] else []
  }

  predicate ClaimSeen(claims: seq<Claimed>, id: string, account: Address, from: int, to: int) {
    exists k :: 0 <= k < |claims| && claims[k].id == id && claims[k].account == account && from <= claims[k].block <= to
  }

  /** The lookup for one proposal: `None` when it fails, `Some(None)` when there is no offer. */
  function Lookup(ev: Events, head: int, id: string, account: Address): Option<Option<Offer>> {
    if ev.fails(id, Results) then None
    else
      var updates := UpdatesOf(ev.updates, id, head - LOOK_BACK, ev.tip);
      if updates == [] then Some(None)
      else
        match updates[0].data
        case None => None
        case Some(data) =>
          if account !in data then Some(None)
          else if data[account].None? || ev.fails(id, Claims) then None
          else
            Some(Some(Offer(data[account].value,
                            ClaimSeen(ev.claims, id, account, head - LOOK_BACK, ev.claimTip))))
  }

  predicate AllLookupsAnswer(ids: seq<string>, ev: Events, head: int, account: Address) {
    forall k :: 0 <= k < |ids| ==> Lookup(ev, head, ids[k], account).Some?
  }

  /** Fills the map of offers, one listed proposal after the other, until a lookup fails. */
  method FindRewards(ids: seq<string>, ev: Events, head: int, account: Address) returns (rewards: Option<map<string, Offer>>)
    ensures rewards.Some? <==> AllLookupsAnswer(ids, ev, head, account)
    ensures rewards.Some? ==> forall id ::
      (id in rewards.value <==> id in ids && Lookup(ev, head, id, account).value.Some?) &&
      (id in rewards.value ==> Lookup(ev, head, id, account).value == Some(rewards.value[id]))
  {
    var found: map<string, Offer> := map[];
    for i := 0 to |ids|
      invariant AllLookupsAnswer(ids[..i], ev, head, account)
      invariant forall id :: id in found <==> id in ids[..i] && Lookup(ev, head, id, account).value.Some?
      invariant forall id :: id in found ==> Lookup(ev, head, id, account) == Some(Some(found[id]))
    {
      assert ids[..i + 1] == ids[..i] + [ids[i]];
      if ev.fails(ids[i], Results) {
        return None;
      }
      var updates := UpdatesOf(ev.updates, ids[i], head - LOOK_BACK, ev.tip);
      if |updates| > 0 {
        if updates[0].data.None? {
          return None;
        }
        var data := updates[0].data.value;
        if account in data {
          if data[account].None? {
            return None;
          }
          found := found[ids[i] := Offer(data[account].value, false)];
          if ev.fails(ids[i], Claims) {
            return None;
          }
          if ClaimSeen(ev.claims, ids[i], account, head - LOOK_BACK, ev.claimTip) {
            found := found[ids[i] := found[ids[i]].(alreadyClaimed := true)];
          }
        }
      }
    }
    assert ids[..|ids|] == ids;
    rewards := Some(found);
  }

  // ---- Which result is read ----

  /** The event is the first of its proposal in the window. */
  predicate FirstInWindow(updates: seq<Updated>, u: Updated, from: int, to: int) {
    exists k :: 0 <= k < |updates| && updates[k] == u && from <= u.block <= to
      && forall j :: 0 <= j < k && updates[j].id == u.id ==> !(from <= updates[j].block <= to)
  }

  predicate NoneInWindow(updates: seq<Updated>, id: string, from: int, to: int) {
    forall k :: 0 <= k < |updates| && updates[k].id == id ==> !(from <= updates[k].block <= to)
  }

  lemma {:induction false} FirstUpdateIs(updates: seq<Updated>, id: string, from: int, to: int)
    ensures var found := UpdatesOf(updates, id, from, to);
      && (found == [] <==> NoneInWindow(updates, id, from, to))
      && (found != [] ==> found[0].id == id && FirstInWindow(updates, found[0], from, to))
  {
    if updates != [] {
      var n := |updates| - 1;
      FirstUpdateIs(updates[..n], id, from, to);
      var found := UpdatesOf(updates[..n], id, from, to);
      assert forall j :: 0 <= j < n ==> updates[..n][j] == updates[j];
      if found != [] {
        var k :| 0 <= k < n && updates[..n][k] == found[0]
          && forall j :: 0 <= j < k ==> !InWindow(updates[..n][j], found[0].id, from, to);
        assert updates[k] == found[0] && forall j :: 0 <= j < k ==> !InWindow(updates[j], id, from, to);
        assert InWindow(updates[k], id, from, to);
      } else if InWindow(updates[n], id, from, to) {
        assert FirstInWindow(updates, updates[n], from, to);
      }
    }
  }

  lemma FirstIsUnique(updates: seq<Updated>, u: Updated, v: Updated, from: int, to: int)
    requires FirstInWindow(updates, u, from, to) && FirstInWindow(updates, v, from, to) && u.id == v.id
    ensures u == v
  {
    var i :| 0 <= i < |updates| && updates[i] == u && forall j :: 0 <= j < i ==> !InWindow(updates[j], u.id, from, to);
    var k :| 0 <= k < |updates| && updates[k] == v && forall j :: 0 <= j < k ==> !InWindow(updates[j], v.id, from, to);
    assert InWindow(updates[i], u.id, from, to) && InWindow(updates[k], u.id, from, to);
  }

  /** The lookup of a proposal fails: the query for its results does, or the first result in the window
      cannot be read for the account. */
  predicate Unanswered(ev: Events, head: int, id: string, account: Address) {
    ev.fails(id, Results) ||
    exists u :: u in ev.updates && u.id == id && FirstInWindow(ev.updates, u, head - LOOK_BACK, ev.tip) && UnreadableFor(ev, u, account)
  }

  lemma FirstIsFound(updates: seq<Updated>, u: Updated, from: int, to: int)
    requires FirstInWindow(updates, u, from, to)
    ensures UpdatesOf(updates, u.id, from, to) != [] && UpdatesOf(updates, u.id, from, to)[0] == u && u in updates
  {
    FirstUpdateIs(updates, u.id, from, to);
    var found := UpdatesOf(updates, u.id, from, to);
    var k :| 0 <= k < |updates| && updates[k] == u && from <= u.block <= to;
    if found != [] {
      FirstIsUnique(updates, u, found[0], from, to);
    }
  }

  /** The data is not readable, or what it has for the account is not; or it has something, and the query
      for claims fails. */
  predicate UnreadableFor(ev: Events, u: Updated, account: Address) {
    u.data.None? || (account in u.data.value && (u.data.value[account].None? || ev.fails(u.id, Claims)))
  }

  lemma LookupFailsIff(ev: Events, head: int, id: string, account: Address)
    ensures Lookup(ev, head, id, account).None? <==> Unanswered(ev, head, id, account)
  {
    var from, to := head - LOOK_BACK, ev.tip;
    var found := UpdatesOf(ev.updates, id, from, to);
    FirstUpdateIs(ev.updates, id, from, to);
    assert found != [] ==> found[0].id == id && (Lookup(ev, head, id, account).None? <==> ev.fails(id, Results) || UnreadableFor(ev, found[0], account));
    if found != [] {
      FirstIsFound(ev.updates, found[0], from, to);
    }
    forall u: Updated | u.id == id && FirstInWindow(ev.updates, u, from, to)
      ensures found != [] && u == found[0]
    {
      FirstIsFound(ev.updates, u, from, to);
    }
  }
}
