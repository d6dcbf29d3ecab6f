/**
 Collection of votes in one shared tile. A client that votes reads the whole list, checks that its
 account is not in it, signs and encrypts, appends its record to its own copy and overwrites the
 tile. Nothing locks the tile between the read and the overwrite, so the model lets any number of
 clients, several of them possibly for one account, interleave these steps in any order.
 */
module VoteCollection {
  import opened Common

  datatype Vote = Vote(proposalId: string, account: Address, cyphertext: string, signature: string)

  predicate HasVoted(votes: seq<Vote>, account: Address) {
    exists k :: 0 <= k < |votes| && votes[k].account == account
  }

  predicate DistinctAccounts(votes: seq<Vote>) {
    forall i, j :: 0 <= i < j < |votes| ==> votes[i].account != votes[j].account
  }

  // ---- The steps of one client, on the shared document ----

  /** The shared document. `data` is absent until the first overwrite. */
  class VoteTile {
    var data: Option<seq<Vote>>

    constructor ()
      ensures data == None && Votes() == []
    {
      data := None;
    }

    function Votes(): seq<Vote>
      reads this
    {
      if data.Some? then data.value else []
    }

    /** Reads the list and stops with `None` when the account is already in it. */
    method BeginVote(account: Address) returns (copy: Option<seq<Vote>>)
      ensures copy == AfterRead(Votes(), account)
    {
      var votes := Votes();
      var k := 0;
      while k < |votes|
        invariant 0 <= k <= |votes|
        invariant !HasVoted(votes[..k], account)
      {
        if votes[k].account == account {
          return None;
        }
        k := k + 1;
      }
      assert votes[..k] == votes;
      copy := Some(votes);
    }

    /** Appends the record to the private copy and overwrites the document with the result. */
    method FinishVote(copy: seq<Vote>, vote: Vote)
      modifies this
      ensures data == Some(copy + [vote]) && Votes() == copy + [vote]
    {
      var newVotes := copy;
      newVotes := newVotes + [vote];
      data := Some(newVotes);
    }

    /** An undisturbed call: the record is appended exactly when the account had not voted. */
    method CastUndisturbed(vote: Vote) returns (accepted: bool)
      modifies this
      ensures accepted == !HasVoted(old(Votes()), vote.account)
      ensures Votes() == if accepted then old(Votes()) + [vote] else old(Votes())
      ensures HasVoted(Votes(), vote.account)
      ensures DistinctAccounts(old(Votes())) ==> DistinctAccounts(Votes())
    {
      var copy := BeginVote(vote.account);
      accepted := copy.Some?;
      if accepted {
        FinishVote(copy.value, vote);
        assert Votes()[|old(Votes())|].account == vote.account;
      }
    }
  }

  function AfterRead(votes: seq<Vote>, account: Address): Option<seq<Vote>> {
    if HasVoted(votes, account) then None else Some(votes)
  }

  // ---- Interleavings ----

  /** `seen` is the number of overwrites that had happened when the copy was read. */
  datatype Phase = Idle | Editing(copy: seq<Vote>, seen: nat) | Refused | Stored | Abandoned

  /** `version` counts the overwrites so far. */
  datatype State = State(tile: seq<Vote>, version: nat, phases: seq<Phase>)

  /** A client reads, overwrites, or gives up because signing, encryption or the overwrite failed. */
  datatype Event = Read(client: nat) | Write(client: nat) | Abandon(client: nat)

  function Start(ballots: seq<Vote>, tile: seq<Vote>): State {
    State(tile, 0, seq(|ballots|, _ => Idle))
  }

  predicate CanWrite(s: State, client: nat) {
    client < |s.phases| && s.phases[client].Editing?
  }

  /** One step of the client the event names; an event that is not enabled changes nothing. */
  function Step(ballots: seq<Vote>, s: State, e: Event): (t: State)
    requires |s.phases| == |ballots|
    ensures |t.phases| == |ballots|
  {
    match e
    case Read(c) =>
      if c < |s.phases| && s.phases[c].Idle? then
        var copy := AfterRead(s.tile, ballots[c].account);
        s.(phases := s.phases[c := if copy.Some? then Editing(copy.value, s.version) else Refused])
      else s
    case Write(c) =>
      if CanWrite(s, c) then
        State(s.phases[c].copy + [ballots[c]], s.version + 1, s.phases[c := Stored])
      else s
    case Abandon(c) =>
      if CanWrite(s, c) then s.(phases := s.phases[c := Abandoned]) else s
  }

  function Run(ballots: seq<Vote>, tile: seq<Vote>, events: seq<Event>): (s: State)
    ensures |s.phases| == |ballots|
  {
    if events == [] then Start(ballots, tile)
    else
      var n := |events| - 1;
      Step(ballots, Run(ballots, tile, events[..n]), events[n])
  }

  /** What a fresh document holds after a run: nothing, not even an empty list, until the first
      overwrite. */
  function Document(s: State): Option<seq<Vote>> {
    if s.version == 0 then None else Some(s.tile)
  }

  // ---- What every interleaving keeps ----

  predicate IsStored(ballots: seq<Vote>, s: State, vote: Vote)
    requires |s.phases| == |ballots|
  {
    exists c :: 0 <= c < |ballots| && s.phases[c].Stored? && vote == ballots[c]
  }

  /** Every record after the first `|start|` was stored by some client. */
  predicate FromStored(ballots: seq<Vote>, start: seq<Vote>, s: State, votes: seq<Vote>)
    requires |s.phases| == |ballots|
  {
    && start <= votes
    && forall k :: |start| <= k < |votes| ==> IsStored(ballots, s, votes[k])
  }

  predicate CopyInv(ballots: seq<Vote>, start: seq<Vote>, s: State, c: nat)
    requires |s.phases| == |ballots| && c < |ballots|
  {
    s.phases[c].Editing? ==>
      var copy, seen := s.phases[c].copy, s.phases[c].seen;
      && DistinctAccounts(copy)
      && !HasVoted(copy, ballots[c].account)
      && FromStored(ballots, start, s, copy)
      && seen <= s.version
      && |copy| <= |start| + seen
      && (seen == s.version ==> copy == s.tile)
  }

  predicate Inv(ballots: seq<Vote>, start: seq<Vote>, s: State) {
    && |s.phases| == |ballots|
    && DistinctAccounts(s.tile)
    && FromStored(ballots, start, s, s.tile)
    && |s.tile| <= |start| + s.version
    && forall c :: 0 <= c < |ballots| ==> CopyInv(ballots, start, s, c)
  }

  lemma StepKeepsInv(ballots: seq<Vote>, start: seq<Vote>, s: State, e: Event)
    requires Inv(ballots, start, s)
    ensures Inv(ballots, start, Step(ballots, s, e))
  {
    var t := Step(ballots, s, e);
    FromStoredKept(ballots, start, s, e, s.tile);
    forall c | 0 <= c < |ballots|
      ensures CopyInv(ballots, start, t, c)
    {
      assert CopyInv(ballots, start, s, c);
      if t.phases[c].Editing? {
        FromStoredKept(ballots, start, s, e, t.phases[c].copy);
      }
    }
    if e.Write? && CanWrite(s, e.client) {
      assert CopyInv(ballots, start, s, e.client);
      FromStoredKept(ballots, start, s, e, s.phases[e.client].copy);
      assert t.phases[e.client].Stored?;
    }
  }

  lemma FromStoredKept(ballots: seq<Vote>, start: seq<Vote>, s: State, e: Event, votes: seq<Vote>)
    requires |s.phases| == |ballots| && FromStored(ballots, start, s, votes)
    ensures FromStored(ballots, start, Step(ballots, s, e), votes)
  {
    var t := Step(ballots, s, e);
    forall k | |start| <= k < |votes|
      ensures IsStored(ballots, t, votes[k])
    {
      assert IsStored(ballots, s, votes[k]);
      var c :| 0 <= c < |ballots| && s.phases[c].Stored? && votes[k] == ballots[c];
      assert t.phases[c].Stored?;
    }
  }

  lemma {:induction false} RunKeepsInv(ballots: seq<Vote>, start: seq<Vote>, events: seq<Event>)
    requires DistinctAccounts(start)
    ensures Inv(ballots, start, Run(ballots, start, events))
  {
    if events != [] {
      var n := |events| - 1;
      RunKeepsInv(ballots, start, events[..n]);
      StepKeepsInv(ballots, start, Run(ballots, start, events[..n]), events[n]);
    }
  }

  /** In every interleaving no account is stored twice, even one that races with itself, no stored
      vote is invented, the votes present at the start stay in front, and no client in flight holds
      a copy that already contains its own account. */
  lemma OneVotePerAccount(ballots: seq<Vote>, start: seq<Vote>, events: seq<Event>)
    requires DistinctAccounts(start)
    ensures var s := Run(ballots, start, events);
      && DistinctAccounts(s.tile)
      && start <= s.tile
      && (forall v :: v in s.tile ==> v in start || v in ballots)
      && (forall c :: 0 <= c < |ballots| && s.phases[c].Editing? ==>
            DistinctAccounts(s.phases[c].copy + [ballots[c]]))
  {
    RunKeepsInv(ballots, start, events);
    var s := Run(ballots, start, events);
    forall c | 0 <= c < |ballots| && s.phases[c].Editing?
      ensures DistinctAccounts(s.phases[c].copy + [ballots[c]])
    {
      assert CopyInv(ballots, start, s, c);
    }
  }

  // ---- When votes are lost ----

  /** The write overwrites a list that changed after the writing client had read it. */
  predicate Overlaps(s: State, e: Event) {
    e.Write? && CanWrite(s, e.client) && s.phases[e.client].seen != s.version
  }

  predicate Serial(ballots: seq<Vote>, start: seq<Vote>, events: seq<Event>) {
    events == [] ||
    var n := |events| - 1;
    Serial(ballots, start, events[..n]) && !Overlaps(Run(ballots, start, events[..n]), events[n])
  }

  /** The tile holds as many records as were stored exactly when no two calls overlapped. */
  lemma {:induction false} FullIffSerial(ballots: seq<Vote>, start: seq<Vote>, events: seq<Event>)
    requires DistinctAccounts(start)
    ensures var s := Run(ballots, start, events);
      |s.tile| == |start| + s.version <==> Serial(ballots, start, events)
  {
    if events != [] {
      var n := |events| - 1;
      var s, e := Run(ballots, start, events[..n]), events[n];
      FullIffSerial(ballots, start, events[..n]);
      RunKeepsInv(ballots, start, events[..n]);
      if e.Write? && CanWrite(s, e.client) {
        assert CopyInv(ballots, start, s, e.client);
      }
    }
  }

  function StoredClients(s: State): set<nat> {
    set c: nat | c < |s.phases| && s.phases[c].Stored?
  }

  lemma {:induction false} VersionCountsStores(ballots: seq<Vote>, start: seq<Vote>, events: seq<Event>)
    ensures var s := Run(ballots, start, events); |StoredClients(s)| == s.version
  {
    var s := Run(ballots, start, events);
    if events == [] {
      assert StoredClients(s) == {};
    } else {
      var n := |events| - 1;
      VersionCountsStores(ballots, start, events[..n]);
      var r, e := Run(ballots, start, events[..n]), events[n];
      if e.Write? && CanWrite(r, e.client) {
        assert StoredClients(s) == StoredClients(r) + {e.client};
      } else {
        assert StoredClients(s) == StoredClients(r);
      }
    }
  }

  function BallotsOf(ballots: seq<Vote>, clients: set<nat>): set<Vote>
    requires forall c :: c in clients ==> c < |ballots|
  {
    set c | c in clients :: ballots[c]
  }

  lemma {:induction false} BallotsOfCount(ballots: seq<Vote>, clients: set<nat>)
    requires NoDuplicates(ballots) && forall c :: c in clients ==> c < |ballots|
    ensures |BallotsOf(ballots, clients)| == |clients|
  {
    if clients != {} {
      var c :| c in clients;
      BallotsOfCount(ballots, clients - {c});
      assert BallotsOf(ballots, clients) == BallotsOf(ballots, clients - {c}) + {ballots[c]};
    }
  }

  function Added(start: seq<Vote>, s: State): set<Vote> {
    set k | |start| <= k < |s.tile| :: s.tile[k]
  }

  lemma AddedAreStored(ballots: seq<Vote>, start: seq<Vote>, events: seq<Event>)
    requires DistinctAccounts(start)
    ensures var s := Run(ballots, start, events);
      && start <= s.tile
      && Added(start, s) <= BallotsOf(ballots, StoredClients(s))
      && |Added(start, s)| == |s.tile| - |start|
  {
    var s := Run(ballots, start, events);
    RunKeepsInv(ballots, start, events);
    forall k | |start| <= k < |s.tile|
      ensures s.tile[k] in BallotsOf(ballots, StoredClients(s))
    {
      assert IsStored(ballots, s, s.tile[k]);
      var c :| 0 <= c < |ballots| && s.phases[c].Stored? && s.tile[k] == ballots[c];
      assert c in StoredClients(s);
    }
    var added := s.tile[|start|..];
    assert NoDuplicates(added);
    ElementsCount(added);
    assert forall v :: v in Elements(added) ==> v in Added(start, s);
    assert Elements(added) == Added(start, s);
  }

  predicate AllKept(ballots: seq<Vote>, s: State)
    requires |s.phases| == |ballots|
  {
    forall c :: c in StoredClients(s) ==> ballots[c] in s.tile
  }

  lemma AllKeptIffSameRecords(ballots: seq<Vote>, start: seq<Vote>, s: State)
    requires |s.phases| == |ballots| && start <= s.tile
    requires forall v :: v in start ==> v !in ballots
    ensures AllKept(ballots, s) <==> BallotsOf(ballots, StoredClients(s)) <= Added(start, s)
  {
    assert forall k :: 0 <= k < |start| ==> s.tile[k] == start[k] && start[k] in start;
    if AllKept(ballots, s) {
      forall c | c in StoredClients(s)
        ensures ballots[c] in Added(start, s)
      {
        var k :| 0 <= k < |s.tile| && s.tile[k] == ballots[c];
        assert |start| <= k;
      }
    }
    if BallotsOf(ballots, StoredClients(s)) <= Added(start, s) {
      forall c | c in StoredClients(s)
        ensures ballots[c] in s.tile
      {
        assert ballots[c] in BallotsOf(ballots, StoredClients(s));
      }
    }
  }

  /** Every vote whose overwrite completed is still in the tile exactly when every overwrite was
      made on the list its client had read. Encryption is randomised, so no two records are equal. */
  lemma NoVoteLostIffSerial(ballots: seq<Vote>, start: seq<Vote>, events: seq<Event>)
    requires DistinctAccounts(start) && NoDuplicates(ballots)
    requires forall v :: v in start ==> v !in ballots
    ensures AllKept(ballots, Run(ballots, start, events)) <==> Serial(ballots, start, events)
  {
    var s := Run(ballots, start, events);
    AddedAreStored(ballots, start, events);
    FullIffSerial(ballots, start, events);
    VersionCountsStores(ballots, start, events);
    BallotsOfCount(ballots, StoredClients(s));
    AllKeptIffSameRecords(ballots, start, s);
    SubsetOfSameSize(Added(start, s), BallotsOf(ballots, StoredClients(s)));
  }

  /** The records whose overwrite completed, in the order of the overwrites. */
  function Completed(ballots: seq<Vote>, start: seq<Vote>, events: seq<Event>): seq<Vote> {
    if events == [] then []
    else
      var n := |events| - 1;
      var s, e := Run(ballots, start, events[..n]), events[n];
      Completed(ballots, start, events[..n]) +
      if e.Write? && CanWrite(s, e.client) then [ballots[e.client]] else []
  }

  /** A run without overlap refines an append-only list: the tile is the starting list followed by
      every completed vote in order. */
  lemma {:induction false} SerialRunAppends(ballots: seq<Vote>, start: seq<Vote>, events: seq<Event>)
    requires DistinctAccounts(start) && Serial(ballots, start, events)
    ensures Run(ballots, start, events).tile == start + Completed(ballots, start, events)
  {
    if events != [] {
      var n := |events| - 1;
      SerialRunAppends(ballots, start, events[..n]);
      RunKeepsInv(ballots, start, events[..n]);
      var s, e := Run(ballots, start, events[..n]), events[n];
      if e.Write? && CanWrite(s, e.client) {
        assert CopyInv(ballots, start, s, e.client);
      }
    }
  }

  /** Two clients that both read before either writes: the first completed vote is gone. */
  lemma RaceLosesVote(first: Vote, second: Vote)
    requires first != second
    ensures var s := Run([first, second], [], [Read(0), Read(1), Write(0), Write(1)]);
      s.phases[0].Stored? && s.tile == [second] && first !in s.tile
  {
    var ballots := [first, second];
    var events := [Read(0), Read(1), Write(0), Write(1)];
    var s0 := Start(ballots, []);
    assert events[..3] == [Read(0), Read(1), Write(0)];
    assert events[..3][..2] == [Read(0), Read(1)];
    assert [Read(0), Read(1)][..1] == [Read(0)];
    assert Run(ballots, [], [Read(0)]) == Step(ballots, s0, Read(0));
    assert Run(ballots, [], [Read(0), Read(1)]).phases == [Editing([], 0), Editing([], 0)];
    assert Run(ballots, [], [Read(0), Read(1), Write(0)]).tile == [first];
  }

  // ---- What one call does, whatever the others do ----

  predicate NotFrom(events: seq<Event>, c: nat) {
    forall i :: 0 <= i < |events| ==> events[i].client != c
  }

  lemma RunOneMore(ballots: seq<Vote>, tile: seq<Vote>, events: seq<Event>, e: Event)
    ensures Run(ballots, tile, events + [e]) == Step(ballots, Run(ballots, tile, events), e)
  {
    assert (events + [e])[..|events|] == events;
  }

  lemma {:induction false} PhaseStays(ballots: seq<Vote>, tile: seq<Vote>, before: seq<Event>, middle: seq<Event>, c: nat)
    requires c < |ballots| && NotFrom(middle, c)
    ensures Run(ballots, tile, before + middle).phases[c] == Run(ballots, tile, before).phases[c]
  {
    if middle == [] {
      assert before + middle == before;
    } else {
      var n := |middle| - 1;
      assert before + middle == (before + middle[..n]) + [middle[n]];
      PhaseStays(ballots, tile, before, middle[..n], c);
      RunOneMore(ballots, tile, before + middle[..n], middle[n]);
    }
  }

  lemma NotStarted(ballots: seq<Vote>, tile: seq<Vote>, before: seq<Event>, c: nat)
    requires c < |ballots| && NotFrom(before, c)
    ensures Run(ballots, tile, before).phases[c] == Idle
  {
    PhaseStays(ballots, tile, [], before, c);
    assert [] + before == before;
  }

  /** Whatever other clients do before and between: a call that reads and then overwrites leaves the list it
      had read with its record at the end, if its account was not in that list, and changes nothing
      otherwise. */
  lemma CallStores(ballots: seq<Vote>, tile: seq<Vote>, before: seq<Event>, middle: seq<Event>, c: nat)
    requires c < |ballots| && NotFrom(before, c) && NotFrom(middle, c)
    ensures var read := Run(ballots, tile, before).tile;
      var found := Run(ballots, tile, before + [Read(c)] + middle).tile;
      Run(ballots, tile, before + [Read(c)] + middle + [Write(c)]).tile ==
        if exists v :: v in read && v.account == ballots[c].account then found else read + [ballots[c]]
  {
    NotStarted(ballots, tile, before, c);
    RunOneMore(ballots, tile, before, Read(c));
    PhaseStays(ballots, tile, before + [Read(c)], middle, c);
    RunOneMore(ballots, tile, before + [Read(c)] + middle, Write(c));
    var read := Run(ballots, tile, before).tile;
    assert HasVoted(read, ballots[c].account) <==> exists v :: v in read && v.account == ballots[c].account;
  }

  /** A call that reads, or that gives up after reading, changes nothing that is stored. */
  lemma ReadAndAbandonStoreNothing(ballots: seq<Vote>, tile: seq<Vote>, before: seq<Event>, c: nat)
    ensures Run(ballots, tile, before + [Read(c)]).tile == Run(ballots, tile, before).tile
    ensures Run(ballots, tile, before + [Abandon(c)]).tile == Run(ballots, tile, before).tile
  {
    RunOneMore(ballots, tile, before, Read(c));
    RunOneMore(ballots, tile, before, Abandon(c));
  }

  /** The client's call has ended: it was refused, has stored, or was given up. */
  predicate Ended(s: State, c: nat) {
    c < |s.phases| && !s.phases[c].Idle? && !s.phases[c].Editing?
  }

  lemma {:induction false} EndedStays(ballots: seq<Vote>, tile: seq<Vote>, before: seq<Event>, rest: seq<Event>, c: nat)
    requires Ended(Run(ballots, tile, before), c)
    ensures Ended(Run(ballots, tile, before + rest), c)
  {
    if rest == [] {
      assert before + rest == before;
    } else {
      var n := |rest| - 1;
      assert before + rest == (before + rest[..n]) + [rest[n]];
      EndedStays(ballots, tile, before, rest[..n], c);
      RunOneMore(ballots, tile, before + rest[..n], rest[n]);
    }
  }

  lemma EndsCall(ballots: seq<Vote>, tile: seq<Vote>, before: seq<Event>, middle: seq<Event>, c: nat, end: Event)
    requires c < |ballots| && NotFrom(before, c) && NotFrom(middle, c)
    requires end == Write(c) || end == Abandon(c)
    ensures Ended(Run(ballots, tile, before + [Read(c)] + middle + [end]), c)
  {
    NotStarted(ballots, tile, before, c);
    RunOneMore(ballots, tile, before, Read(c));
    PhaseStays(ballots, tile, before + [Read(c)], middle, c);
    RunOneMore(ballots, tile, before + [Read(c)] + middle, end);
  }

  /** A call stores at most once: after it has stored or was given up, it never overwrites again, whatever
      happens in between. */
  lemma CallStoresOnce(ballots: seq<Vote>, tile: seq<Vote>, before: seq<Event>, middle: seq<Event>, rest: seq<Event>, c: nat, end: Event)
    requires c < |ballots| && NotFrom(before, c) && NotFrom(middle, c)
    requires end == Write(c) || end == Abandon(c)
    ensures var events := before + [Read(c)] + middle + [end] + rest;
      Run(ballots, tile, events + [Write(c)]).tile == Run(ballots, tile, events).tile
  {
    EndsCall(ballots, tile, before, middle, c, end);
    EndedStays(ballots, tile, before + [Read(c)] + middle + [end], rest, c);
    RunOneMore(ballots, tile, before + [Read(c)] + middle + [end] + rest, Write(c));
  }
}
