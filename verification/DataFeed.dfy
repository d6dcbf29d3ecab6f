/**
 The data feed: round after round, every executed adapter is run and one signed data point is
 appended to its document. Each append is retried; an adapter that fails too often ends the feed.
 */
module DataFeed {
  import opened Common

  const RETRIES: nat := 5
  const EXECUTED: nat := 7

  datatype Point = Point(response: string, hash: string, signature: string)

  /** A document: its data points, absent at first, and whatever else it holds. */
  datatype Content = Content(other: map<string, string>, dataPoints: Option<seq<Point>>) {
    function Points(): seq<Point> { if dataPoints.Some? then dataPoints.value else [] }
  }

  type Documents = map<string, Content>

  /** Loading a document that does not exist creates it, empty. */
  function Load(docs: Documents, id: string): Content {
    if id in docs then docs[id] else Content(map[], None)
  }

  // ---- Retrying ----

  /** The retry limit; a call without one compares with `undefined` and so never retries. */
  function Limit(maxRetries: Option<nat>): nat {
    if maxRetries.Some? then maxRetries.value else 0
  }

  /** Calls the operation until it succeeds or has been retried `maxRetries` times. */
  method WithRetry<T, E>(operation: nat -> Result<T, E>, maxRetries: Option<nat>) returns (r: Result<T, E>, calls: nat)
    ensures 1 <= calls <= Limit(maxRetries) + 1
    ensures r == operation(calls - 1)
    ensures forall k :: 0 <= k < calls - 1 ==> operation(k).Err?
    ensures r.Err? <==> forall k :: 0 <= k <= Limit(maxRetries) ==> operation(k).Err?
    ensures r.Err? ==> calls == Limit(maxRetries) + 1
    ensures maxRetries == None ==> calls == 1
  {
    var retries: nat := 0;
    r := operation(retries);
    while r.Err?
      invariant retries <= Limit(maxRetries)
      invariant r == operation(retries)
      invariant forall k :: 0 <= k < retries ==> operation(k).Err?
      decreases Limit(maxRetries) - retries, r.Err?
    {
      if !(maxRetries.Some? && retries + 1 <= maxRetries.value) {
        return r, retries + 1;
      }
      retries := retries + 1;
      r := operation(retries);
    }
    calls := retries + 1;
  }

  // ---- One append ----

  datatype Response = Response(response: string, hash: string)

  /** How the steps of one try turn out; `execute` is itself called under `WithRetry`. */
  datatype Try = Try(
    readCode: Result<(), string>, execute: nat -> Result<Response, string>,
    joinSignature: Result<string, string>, recoverSigner: Result<(), string>,
    load: Result<(), string>, update: Result<(), string>)

  /** The point a try would store: its steps run in order and the first failure ends it. */
  function Outcome(t: Try): Result<Point, string> {
    if t.readCode.Err? then Err(t.readCode.error)
    else if t.execute(0).Err? then Err(t.execute(0).error)
    else if t.joinSignature.Err? then Err(t.joinSignature.error)
    else if t.recoverSigner.Err? then Err(t.recoverSigner.error)
    else if t.load.Err? then Err(t.load.error)
    else if t.update.Err? then Err(t.update.error)
    else Ok(Point(t.execute(0).value.response, t.execute(0).value.hash, t.joinSignature.value))
  }

  /** All steps of the try succeed, and the point holds what the executed code answers and the joined
      signature. */
  predicate Stores(t: Try, p: Point) {
    && t.readCode.Ok? && t.execute(0).Ok? && t.joinSignature.Ok? && t.recoverSigner.Ok? && t.load.Ok? && t.update.Ok?
    && p.response == t.execute(0).value.response && p.hash == t.execute(0).value.hash && p.signature == t.joinSignature.value
  }

  /** Some step of the try fails. */
  predicate Fails(t: Try) {
    t.readCode.Err? || t.execute(0).Err? || t.joinSignature.Err? || t.recoverSigner.Err? || t.load.Err? || t.update.Err?
  }

  lemma OutcomeIs(t: Try)
    ensures Outcome(t).Err? <==> Fails(t)
    ensures Outcome(t).Ok? ==> Stores(t, Outcome(t).value)
  {
  }

  function Append(docs: Documents, id: string, p: Point): Documents {
    docs[id := Load(docs, id).(dataPoints := Some(Load(docs, id).Points() + [p]))]
  }

  /** One document has one more point at its end and is otherwise as it was, empty if it did not exist; all
      others are untouched. */
  predicate Appended(docs: Documents, after: Documents, id: string, p: Point) {
    && after.Keys == docs.Keys + {id}
    && (forall other :: other in docs && other != id ==> after[other] == docs[other])
    && (id in docs ==> after[id].other == docs[id].other)
    && (id in docs && docs[id].dataPoints.Some? ==> after[id].dataPoints == Some(docs[id].dataPoints.value + [p]))
    && (id in docs && docs[id].dataPoints.None? ==> after[id].dataPoints == Some([p]))
    && (id !in docs ==> after[id] == Content(map[], Some([p])))
  }

  lemma AppendIs(docs: Documents, id: string, p: Point)
    ensures Appended(docs, Append(docs, id, p), id, p)
  {
    assert [] + [p] == [p];
  }

  /** The point the first successful try from `k` on stores, if one of the allowed tries succeeds. */
  function Chosen(tries: nat -> Try, k: nat): Option<Point>
    requires k <= RETRIES
    decreases RETRIES - k
  {
    if Outcome(tries(k)).Ok? then Some(Outcome(tries(k)).value)
    else if k == RETRIES then None
    else Chosen(tries, k + 1)
  }

  // ---- Rounds ----

  datatype Adapter = Adapter(id: string, status: nat, tries: nat -> Try)

  /** How a round begins: the signature of the node wallet, the tries to authenticate, and the stored
      list of adapters, which is `None` when it cannot be read. */
  datatype Round = Round(authSig: Result<(), string>, authenticate: nat -> Result<(), string>, listing: Option<seq<Adapter>>)

  function Succeeded(adapters: seq<Adapter>): seq<Adapter> {
    if adapters == [] then []
    else (if adapters[0].status == EXECUTED then [adapters[0]] else []) + Succeeded(adapters[1..])
  }

  predicate Authenticates(round: Round) {
    exists k :: 0 <= k <= RETRIES && round.authenticate(k).Ok?
  }

  /** The round gets as far as its adapters. */
  predicate Starts(round: Round) {
    round.authSig.Ok? && Authenticates(round) && round.listing.Some?
  }

  /** What a round appends, in order, and whether it gets to its end: the first adapter that exhausts
      its tries ends it. */
  function RoundEntries(adapters: seq<Adapter>): seq<(string, Point)> {
    if adapters == [] then []
    else
      match Chosen(adapters[0].tries, 0)
      case None => []
      case Some(p) => [(adapters[0].id, p)] + RoundEntries(adapters[1..])
  }

  predicate RoundCompletes(adapters: seq<Adapter>) {
    forall k :: 0 <= k < |adapters| ==> Chosen(adapters[k].tries, 0).Some?
  }

  function FeedEntries(rounds: seq<Round>): seq<(string, Point)> {
    if rounds == [] || !Starts(rounds[0]) then []
    else
      var adapters := Succeeded(rounds[0].listing.value);
      RoundEntries(adapters) + if RoundCompletes(adapters) then FeedEntries(rounds[1..]) else []
  }

  predicate FeedCompletes(rounds: seq<Round>) {
    forall k :: 0 <= k < |rounds| ==> Starts(rounds[k]) && RoundCompletes(Succeeded(rounds[k].listing.value))
  }

  function AppendAll(docs: Documents, entries: seq<(string, Point)>): Documents
    decreases entries
  {
    if entries == [] then docs
    else AppendAll(Append(docs, entries[0].0, entries[0].1), entries[1..])
  }

  // ---- The feed, on the shared documents ----

  class Ceramic {
    var documents: Documents

    constructor ()
      ensures documents == map[]
    {
      documents := map[];
    }

    /** One try. The document is replaced last, so a try that fails anywhere changes nothing. */
    method TryAppend(id: string, t: Try) returns (r: Result<(), string>)
      modifies this
      ensures r.Ok? == Outcome(t).Ok? && (r.Err? ==> r.error == Outcome(t).error)
      ensures documents == if Outcome(t).Ok? then Append(old(documents), id, Outcome(t).value) else old(documents)
      ensures r.Err? <==> Fails(t)
      ensures r.Ok? ==> exists p :: Stores(t, p) && Appended(old(documents), documents, id, p)
    {
      OutcomeIs(t);
      if Outcome(t).Ok? {
        AppendIs(documents, id, Outcome(t).value);
      }
      if t.readCode.Err? {
        return Err(t.readCode.error);
      }
      var results, _ := WithRetry(t.execute, None);
      if results.Err? {
        return Err(results.error);
      }
      if t.joinSignature.Err? {
        return Err(t.joinSignature.error);
      }
      if t.recoverSigner.Err? {
        return Err(t.recoverSigner.error);
      }
      if t.load.Err? {
        return Err(t.load.error);
      }
      var newContent := Load(documents, id);
      newContent := newContent.(dataPoints := Some(newContent.Points()));
      var point := Point(results.value.response, results.value.hash, t.joinSignature.value);
      newContent := newContent.(dataPoints := Some(newContent.dataPoints.value + [point]));
      if t.update.Err? {
        return Err(t.update.error);
      }
      documents := documents[id := newContent];
      r := Ok(());
    }

    /** Retries the append. Each try loads the document again, so a retry never appends twice. */
    method AppendWithRetry(id: string, tries: nat -> Try) returns (ok: bool, calls: nat)
      modifies this
      ensures ok == Chosen(tries, 0).Some? && 1 <= calls <= 6
      ensures documents == if ok then Append(old(documents), id, Chosen(tries, 0).value) else old(documents)
    {
      var retries: nat := 0;
      var r := TryAppend(id, tries(0));
      while r.Err?
        invariant retries <= RETRIES && r.Ok? == Outcome(tries(retries)).Ok?
        invariant Chosen(tries, retries) == Chosen(tries, 0)
        invariant documents == if r.Ok? then Append(old(documents), id, Chosen(tries, 0).value) else old(documents)
        decreases RETRIES - retries, r.Err?
      {
        if retries + 1 > RETRIES {
          return false, retries + 1;
        }
        retries := retries + 1;
        r := TryAppend(id, tries(retries));
      }
      ok, calls := true, retries + 1;
    }

    /** The rounds of the feed; `completed` is false when it was ended by a failure. */
    method Run(rounds: seq<Round>) returns (completed: bool)
      modifies this
      ensures completed == FeedCompletes(rounds)
      ensures documents == AppendAll(old(documents), FeedEntries(rounds))
    {
      for i := 0 to |rounds|
        invariant FeedCompletes(rounds[..i])
        invariant AppendAll(documents, FeedEntries(rounds[i..])) == AppendAll(old(documents), FeedEntries(rounds))
      {
        assert rounds[i..][1..] == rounds[i + 1..] && rounds[..i + 1] == rounds[..i] + [rounds[i]];
        if rounds[i].authSig.Err? {
          return false;
        }
        var auth, _ := WithRetry(rounds[i].authenticate, Some(RETRIES));
        if auth.Err? || rounds[i].listing.None? {
          return false;
        }
        var adapters := Succeeded(rounds[i].listing.value);
        ghost var before := documents;
        var ok := RunRound(adapters);
        AppendAllConcat(before, RoundEntries(adapters), if ok then FeedEntries(rounds[i + 1..]) else []);
        if !ok {
          return false;
        }
      }
      assert rounds[..|rounds|] == rounds;
      completed := true;
    }

    method RunRound(adapters: seq<Adapter>) returns (completed: bool)
      modifies this
      ensures completed == RoundCompletes(adapters)
      ensures documents == AppendAll(old(documents), RoundEntries(adapters))
    {
      for i := 0 to |adapters|
        invariant RoundCompletes(adapters[..i])
        invariant AppendAll(documents, RoundEntries(adapters[i..])) == AppendAll(old(documents), RoundEntries(adapters))
      {
        assert adapters[i..][1..] == adapters[i + 1..];
        assert adapters[..i + 1] == adapters[..i] + [adapters[i]];
        var ok, _ := AppendWithRetry(adapters[i].id, adapters[i].tries);
        if !ok {
          return false;
        }
      }
      assert adapters[..|adapters|] == adapters;
      completed := true;
    }
  }

  lemma {:induction false} AppendAllConcat(docs: Documents, a: seq<(string, Point)>, b: seq<(string, Point)>)
    ensures AppendAll(docs, a + b) == AppendAll(AppendAll(docs, a), b)
    decreases a
  {
    if a == [] {
      assert a + b == b;
    } else {
      AppendAllConcat(Append(docs, a[0].0, a[0].1), a[1..], b);
      assert (a + b)[1..] == a[1..] + b;
    }
  }

  // ---- What the feed keeps ----

  function PointsFor(entries: seq<(string, Point)>, id: string): seq<Point> {
    if entries == [] then []
    else (if entries[0].0 == id then [entries[0].1] else []) + PointsFor(entries[1..], id)
  }

  lemma {:induction false} HistoryOf(docs: Documents, entries: seq<(string, Point)>, id: string)
    ensures Load(AppendAll(docs, entries), id).Points() == Load(docs, id).Points() + PointsFor(entries, id)
    ensures Load(AppendAll(docs, entries), id).other == Load(docs, id).other
    decreases entries
  {
    if entries != [] {
      var next := Append(docs, entries[0].0, entries[0].1);
      HistoryOf(next, entries[1..], id);
      var before, mine, rest := Load(docs, id).Points(), entries[0].1, PointsFor(entries[1..], id);
      if entries[0].0 == id {
        assert (before + [mine]) + rest == before + ([mine] + rest);
      }
    }
  }

  /** Over every run of the feed, whatever fails, each document keeps its whole history as a prefix and
      everything else it holds, and gains exactly the points of the appends that went through, in
      order. */
  lemma FeedOnlyAppends(docs: Documents, rounds: seq<Round>, id: string)
    ensures var after := AppendAll(docs, FeedEntries(rounds));
      && Load(after, id).Points() == Load(docs, id).Points() + PointsFor(FeedEntries(rounds), id)
      && Load(docs, id).Points() <= Load(after, id).Points()
      && Load(after, id).other == Load(docs, id).other
  {
    HistoryOf(docs, FeedEntries(rounds), id);
  }

  predicate DistinctAdapters(adapters: seq<Adapter>) {
    forall i, j :: 0 <= i < j < |adapters| ==> adapters[i].id != adapters[j].id
  }

  lemma GainOfFirst(adapters: seq<Adapter>, id: string)
    requires adapters != []
    ensures PointsFor(RoundEntries(adapters), id) ==
      match Chosen(adapters[0].tries, 0)
      case None => []
      case Some(p) => (if adapters[0].id == id then [p] else []) + PointsFor(RoundEntries(adapters[1..]), id)
  {
    if Chosen(adapters[0].tries, 0).Some? {
      assert RoundEntries(adapters)[1..] == RoundEntries(adapters[1..]);
    }
  }

  lemma {:induction false} OtherAdaptersGainNothing(adapters: seq<Adapter>, id: string)
    requires forall k :: 0 <= k < |adapters| ==> adapters[k].id != id
    ensures PointsFor(RoundEntries(adapters), id) == []
  {
    if adapters != [] {
      OtherAdaptersGainNothing(adapters[1..], id);
      GainOfFirst(adapters, id);
    }
  }

  lemma CompletesFromFirst(adapters: seq<Adapter>, i: nat)
    requires i < |adapters|
    ensures RoundCompletes(adapters[..i + 1]) <==>
      Chosen(adapters[0].tries, 0).Some? && RoundCompletes(adapters[1..][..i])
  {
    var prefix, rest := adapters[..i + 1], adapters[1..][..i];
    assert prefix[0] == adapters[0];
    assert forall k :: 0 <= k < i ==> rest[k] == prefix[k + 1];
    assert forall k :: 0 < k < |prefix| ==> prefix[k] == rest[k - 1];
  }

  lemma FirstAdapterGain(adapters: seq<Adapter>)
    requires DistinctAdapters(adapters) && adapters != []
    ensures PointsFor(RoundEntries(adapters), adapters[0].id) ==
      match Chosen(adapters[0].tries, 0) case None => [] case Some(p) => [p]
  {
    OtherAdaptersGainNothing(adapters[1..], adapters[0].id);
    GainOfFirst(adapters, adapters[0].id);
  }

  lemma LaterAdapterGain(adapters: seq<Adapter>, id: string)
    requires adapters != [] && adapters[0].id != id
    ensures PointsFor(RoundEntries(adapters), id) ==
      if Chosen(adapters[0].tries, 0).None? then [] else PointsFor(RoundEntries(adapters[1..]), id)
  {
    GainOfFirst(adapters, id);
  }

  /** What an adapter gains in a round: the point of its first successful try, if neither it nor an
      earlier one exhausts its tries. */
  function Gain(adapters: seq<Adapter>, i: nat): seq<Point>
    requires i < |adapters|
  {
    match Chosen(adapters[i].tries, 0)
    case None => []
    case Some(p) => if RoundCompletes(adapters[..i]) then [p] else []
  }

  lemma GainWithoutFirst(adapters: seq<Adapter>, i: nat)
    requires 0 < i < |adapters|
    ensures Gain(adapters, i) == if Chosen(adapters[0].tries, 0).None? then [] else Gain(adapters[1..], i - 1)
  {
    CompletesFromFirst(adapters, i - 1);
    assert adapters[1..][i - 1] == adapters[i];
  }

  /** In one round over distinct adapters, an adapter gains exactly one point, that of its first
      successful try, if neither it nor an earlier one exhausts its tries; otherwise none. */
  lemma {:induction false} RoundGain(adapters: seq<Adapter>, i: nat)
    requires DistinctAdapters(adapters) && i < |adapters|
    ensures PointsFor(RoundEntries(adapters), adapters[i].id) == Gain(adapters, i)
  {
    if i == 0 {
      FirstAdapterGain(adapters);
    } else {
      LaterAdapterGain(adapters, adapters[i].id);
      GainWithoutFirst(adapters, i);
      RoundGain(adapters[1..], i - 1);
      assert adapters[1..][i - 1] == adapters[i];
    }
  }

  /** The chosen point is that of the first try that succeeds, and there is one exactly when one of the
      six tries does. */
  lemma {:induction false} ChosenIsFirstSuccess(tries: nat -> Try, k: nat)
    requires k <= RETRIES
    ensures Chosen(tries, k).None? <==> forall j :: k <= j <= RETRIES ==> Outcome(tries(j)).Err?
    ensures Chosen(tries, k).Some? ==>
      (exists j :: k <= j <= RETRIES && Outcome(tries(j)) == Ok(Chosen(tries, k).value)
                   && forall i :: k <= i < j ==> Outcome(tries(i)).Err?)
    decreases RETRIES - k
  {
    if Outcome(tries(k)).Err? && k < RETRIES {
      ChosenIsFirstSuccess(tries, k + 1);
    }
  }

  // ---- What the stored list of adapters decides ----

  /** None of the six tries of the adapter succeeds. */
  predicate Exhausts(a: Adapter) {
    forall k :: 0 <= k <= 5 ==> Fails(a.tries(k))
  }

  /** The point is that of the adapter's first successful try. */
  predicate FirstStored(a: Adapter, p: Point) {
    exists k :: 0 <= k <= 5 && Stores(a.tries(k), p) && forall j :: 0 <= j < k ==> Fails(a.tries(j))
  }

  lemma ChosenIs(a: Adapter)
    ensures Chosen(a.tries, 0).None? <==> Exhausts(a)
    ensures Chosen(a.tries, 0).Some? ==> FirstStored(a, Chosen(a.tries, 0).value)
  {
    ChosenIsFirstSuccess(a.tries, 0);
    forall k: nat
      ensures Outcome(a.tries(k)).Err? <==> Fails(a.tries(k))
      ensures Outcome(a.tries(k)).Ok? ==> Stores(a.tries(k), Outcome(a.tries(k)).value)
    {
      OutcomeIs(a.tries(k));
    }
  }

  /** No adapter in a stored list has this id and the status of an executed proposal, which is 7. */
  predicate NeverExecuted(adapters: seq<Adapter>, id: string) {
    forall k :: 0 <= k < |adapters| && adapters[k].id == id ==> adapters[k].status != 7
  }

  lemma {:induction false} SucceededIs(adapters: seq<Adapter>, id: string)
    ensures NeverExecuted(adapters, id) ==> forall k :: 0 <= k < |Succeeded(adapters)| ==> Succeeded(adapters)[k].id != id
  {
    if adapters != [] {
      SucceededIs(adapters[1..], id);
      assert forall k :: 0 <= k < |adapters[1..]| ==> adapters[1..][k] == adapters[k + 1];
    }
  }

  lemma {:induction false} EntriesOf(adapters: seq<Adapter>, id: string)
    requires forall k :: 0 <= k < |adapters| ==> adapters[k].id != id
    ensures forall k :: 0 <= k < |RoundEntries(adapters)| ==> RoundEntries(adapters)[k].0 != id
  {
    if adapters != [] {
      EntriesOf(adapters[1..], id);
    }
  }

  lemma {:induction false} FeedEntriesOf(rounds: seq<Round>, id: string)
    requires forall k :: 0 <= k < |rounds| && rounds[k].listing.Some? ==> NeverExecuted(rounds[k].listing.value, id)
    ensures forall k :: 0 <= k < |FeedEntries(rounds)| ==> FeedEntries(rounds)[k].0 != id
  {
    if rounds != [] && Starts(rounds[0]) {
      FeedEntriesOf(rounds[1..], id);
      SucceededIs(rounds[0].listing.value, id);
      EntriesOf(Succeeded(rounds[0].listing.value), id);
    }
  }

  lemma {:induction false} OthersUntouched(docs: Documents, entries: seq<(string, Point)>, id: string)
    requires forall k :: 0 <= k < |entries| ==> entries[k].0 != id
    ensures id in AppendAll(docs, entries) <==> id in docs
    ensures id in docs ==> AppendAll(docs, entries)[id] == docs[id]
    decreases entries
  {
    if entries != [] {
      OthersUntouched(Append(docs, entries[0].0, entries[0].1), entries[1..], id);
    }
  }

  /** Over every run of the feed, the document of an id that no stored list has with status 7 is
      untouched: no data point of a proposal that was not executed is ever signed. */
  lemma OnlyExecutedAreFed(docs: Documents, rounds: seq<Round>, id: string)
    requires forall k :: 0 <= k < |rounds| && rounds[k].listing.Some? ==> NeverExecuted(rounds[k].listing.value, id)
    ensures var after := AppendAll(docs, FeedEntries(rounds));
      (id in after <==> id in docs) && (id in docs ==> after[id] == docs[id])
  {
    FeedEntriesOf(rounds, id);
    OthersUntouched(docs, FeedEntries(rounds), id);
  }

  /** No executed adapter up to the `i`-th of the stored list exhausts its tries. */
  predicate NoneExhaustsUpTo(adapters: seq<Adapter>, i: nat)
    requires i <= |adapters|
  {
    forall k :: 0 <= k < i && adapters[k].status == 7 ==> !Exhausts(adapters[k])
  }

  lemma NoneExhaustsWithoutFirst(adapters: seq<Adapter>, i: nat)
    requires 0 < i <= |adapters|
    ensures NoneExhaustsUpTo(adapters, i) <==>
      (adapters[0].status == 7 ==> !Exhausts(adapters[0])) && NoneExhaustsUpTo(adapters[1..], i - 1)
  {
    assert forall k :: 0 <= k < i - 1 ==> adapters[1..][k] == adapters[k + 1];
    assert forall k :: 0 < k < i ==> adapters[k] == adapters[1..][k - 1];
  }

  lemma SucceededFirst(adapters: seq<Adapter>)
    requires adapters != []
    ensures Succeeded(adapters) ==
      if adapters[0].status == 7 then [adapters[0]] + Succeeded(adapters[1..]) else Succeeded(adapters[1..])
  {
    assert [] + Succeeded(adapters[1..]) == Succeeded(adapters[1..]);
  }

  lemma GainOfListed(adapters: seq<Adapter>, id: string)
    requires adapters != []
    ensures var rest := PointsFor(RoundEntries(Succeeded(adapters[1..])), id);
      PointsFor(RoundEntries(Succeeded(adapters)), id) ==
        if adapters[0].status != 7 then rest
        else match Chosen(adapters[0].tries, 0)
          case None => []
          case Some(p) => (if adapters[0].id == id then [p] else []) + rest
  {
    SucceededFirst(adapters);
    if adapters[0].status == 7 {
      assert Succeeded(adapters)[1..] == Succeeded(adapters[1..]);
      GainOfFirst(Succeeded(adapters), id);
    }
  }

  lemma NoGain(adapters: seq<Adapter>, id: string)
    requires NeverExecuted(adapters, id)
    ensures PointsFor(RoundEntries(Succeeded(adapters)), id) == []
  {
    SucceededIs(adapters, id);
    OtherAdaptersGainNothing(Succeeded(adapters), id);
  }

  /** What the `i`-th adapter of a stored list gains in a round: one point, that of its first successful
      try, if it has status 7 and neither it nor an earlier adapter with status 7 exhausts its tries;
      otherwise nothing. */
  predicate Gains(adapters: seq<Adapter>, i: nat, points: seq<Point>)
    requires i < |adapters|
  {
    if adapters[i].status == 7 && NoneExhaustsUpTo(adapters, i + 1)
    then |points| == 1 && FirstStored(adapters[i], points[0])
    else points == []
  }

  lemma {:induction false} ListedGain(adapters: seq<Adapter>, i: nat)
    requires DistinctAdapters(adapters) && i < |adapters|
    ensures Gains(adapters, i, PointsFor(RoundEntries(Succeeded(adapters)), adapters[i].id))
  {
    var id := adapters[i].id;
    GainOfListed(adapters, id);
    ChosenIs(adapters[0]);
    NoneExhaustsWithoutFirst(adapters, i + 1);
    assert forall k :: 0 <= k < |adapters| - 1 ==> adapters[1..][k] == adapters[k + 1];
    if i == 0 {
      NoGain(adapters[1..], id);
    } else {
      ListedGain(adapters[1..], i - 1);
    }
  }

  /** A round that is signed, authenticated and listed feeds exactly the executed adapters of the stored list
      up to the first that exhausts its tries; one that is not feeds none. */
  lemma RoundFeeds(docs: Documents, round: Round, i: nat)
    requires round.listing.Some? && DistinctAdapters(round.listing.value) && i < |round.listing.value|
    ensures var adapters := round.listing.value;
      var id := adapters[i].id;
      var after := Load(AppendAll(docs, FeedEntries([round])), id).Points();
      exists points :: after == Load(docs, id).Points() + points &&
        if round.authSig.Ok? && (exists k :: 0 <= k <= 5 && round.authenticate(k).Ok?) then Gains(adapters, i, points)
        else points == []
  {
    var adapters := round.listing.value;
    var id := adapters[i].id;
    var entries := FeedEntries([round]);
    HistoryOf(docs, entries, id);
    if Starts(round) {
      ListedGain(adapters, i);
      var mine := RoundEntries(Succeeded(adapters));
      assert [round][1..] == [] && FeedEntries([]) == [];
      assert entries == mine + [];
      assert mine + [] == mine;
    }
    assert Load(AppendAll(docs, entries), id).Points() == Load(docs, id).Points() + PointsFor(entries, id);
  }

  lemma RoundCompletesFirst(adapters: seq<Adapter>)
    requires adapters != []
    ensures RoundCompletes(adapters) <==> Chosen(adapters[0].tries, 0).Some? && RoundCompletes(adapters[1..])
  {
    assert forall k :: 0 <= k < |adapters| - 1 ==> adapters[1..][k] == adapters[k + 1];
    assert forall k :: 0 < k < |adapters| ==> adapters[k] == adapters[1..][k - 1];
  }

  lemma {:induction false} CompletesIff(adapters: seq<Adapter>)
    ensures RoundCompletes(Succeeded(adapters)) <==> NoneExhaustsUpTo(adapters, |adapters|)
  {
    if adapters != [] {
      CompletesIff(adapters[1..]);
      NoneExhaustsWithoutFirst(adapters, |adapters|);
      SucceededFirst(adapters);
      if adapters[0].status == 7 {
        ChosenIs(adapters[0]);
        RoundCompletesFirst(Succeeded(adapters));
        assert Succeeded(adapters)[1..] == Succeeded(adapters[1..]);
      }
    }
  }

  /** The round is signed, authenticated and listed, and none of its executed adapters exhausts its tries. */
  predicate GoesOn(round: Round) {
    && round.authSig.Ok? && (exists k :: 0 <= k <= 5 && round.authenticate(k).Ok?)
    && round.listing.Some? && NoneExhaustsUpTo(round.listing.value, |round.listing.value|)
  }

  lemma FeedOfOne(round: Round)
    ensures FeedEntries([round]) == if Starts(round) then RoundEntries(Succeeded(round.listing.value)) else []
  {
    assert [round][1..] == [] && FeedEntries([]) == [];
    if Starts(round) {
      var mine := RoundEntries(Succeeded(round.listing.value));
      assert mine + [] == mine;
    }
  }

  /** The feed goes on to the next round exactly when a round does. */
  lemma FeedGoesOnIff(rounds: seq<Round>)
    requires rounds != []
    ensures FeedEntries(rounds) == FeedEntries([rounds[0]]) + if GoesOn(rounds[0]) then FeedEntries(rounds[1..]) else []
  {
    FeedOfOne(rounds[0]);
    if Starts(rounds[0]) {
      CompletesIff(rounds[0].listing.value);
    }
  }

  /** The feed has ended without failure exactly when all its rounds did. */
  lemma FeedCompletesIff(rounds: seq<Round>)
    ensures FeedCompletes(rounds) <==> forall k :: 0 <= k < |rounds| ==> GoesOn(rounds[k])
  {
    forall k | 0 <= k < |rounds|
      ensures GoesOn(rounds[k]) <==> Starts(rounds[k]) && RoundCompletes(Succeeded(rounds[k].listing.value))
    {
      if rounds[k].listing.Some? {
        CompletesIff(rounds[k].listing.value);
      }
    }
  }
}
