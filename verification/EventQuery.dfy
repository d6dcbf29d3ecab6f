/**
 The paginated event query: the ranges are queried in concurrent chunks, the answers are joined and
 filtered, and the whole call is repeated a bounded number of times when a query fails.
 */
module EventQuery {
  import opened Common
  import opened BlockRanges

  const DEFAULT_CONCURRENCY: nat := 200
  const MAX_RETRIES: nat := 3

  datatype LogEvent = LogEvent(block: int, payload: string)

  /** An absent or zero concurrency means the default. */
  datatype Search = Search(fromBlock: int, toBlock: int, lookBack: Option<int>, concurrency: Option<nat>) {
    function Concurrency(): (c: nat)
      ensures c >= 1
    {
      if concurrency.Some? && concurrency.value != 0 then concurrency.value else DEFAULT_CONCURRENCY
    }
    function Ranges(): Result<seq<Range>, QueryError> { RangesFor(fromBlock, toBlock, lookBack) }
  }

  /** Whether the node fails a query, by attempt and range. */
  type Failures = (nat, Range) -> bool

  // ---- The log ----

  predicate Sorted(log: seq<LogEvent>) {
    forall i, j :: 0 <= i < j < |log| ==> log[i].block <= log[j].block
  }

  /** The events of the blocks `a` to `b`, in log order: what one direct query answers. */
  function Within(log: seq<LogEvent>, a: int, b: int): seq<LogEvent> {
    if log == [] then []
    else
      var n := |log| - 1;
      Within(log[..n], a, b) + if a <= log[n].block <= b then [log[n]] else []
  }

  function Flat(lists: seq<seq<LogEvent>>): seq<LogEvent> {
    if lists == [] then []
    else Flat(lists[..|lists| - 1]) + lists[|lists| - 1]
  }

  function Join(batches: seq<seq<Range>>): seq<Range> {
    if batches == [] then []
    else Join(batches[..|batches| - 1]) + batches[|batches| - 1]
  }

  function Answers(log: seq<LogEvent>, ranges: seq<Range>): seq<seq<LogEvent>> {
    seq(|ranges|, i requires 0 <= i < |ranges| => Within(log, ranges[i].from, ranges[i].to))
  }

  lemma {:induction false} WithinNone(log: seq<LogEvent>, a: int, b: int)
    requires forall i :: 0 <= i < |log| ==> !(a <= log[i].block <= b)
    ensures Within(log, a, b) == []
  {
    if log != [] {
      WithinNone(log[..|log| - 1], a, b);
    }
  }

  lemma WithinLast(log: seq<LogEvent>, a: int, b: int)
    requires log != []
    ensures var n := |log| - 1;
      Within(log, a, b) == if a <= log[n].block <= b then Within(log[..n], a, b) + [log[n]] else Within(log[..n], a, b)
  {
    assert Within(log[..|log| - 1], a, b) + [] == Within(log[..|log| - 1], a, b);
  }

  /** A direct query answers each event of its blocks as often as it is in the log, and no other event. */
  lemma {:induction false} WithinIs(log: seq<LogEvent>, a: int, b: int, e: LogEvent)
    ensures multiset(Within(log, a, b))[e] == if a <= e.block <= b then multiset(log)[e] else 0
  {
    if log != [] {
      var n := |log| - 1;
      WithinIs(log[..n], a, b, e);
      WithinLast(log, a, b);
      assert log == log[..n] + [log[n]];
    }
  }

  /** It answers in the order of the blocks. */
  lemma {:induction false} WithinSorted(log: seq<LogEvent>, a: int, b: int)
    requires Sorted(log)
    ensures Sorted(Within(log, a, b))
  {
    if log != [] {
      var n := |log| - 1;
      var part := Within(log[..n], a, b);
      WithinSorted(log[..n], a, b);
      WithinLast(log, a, b);
      forall i | 0 <= i < |part|
        ensures part[i].block <= log[n].block
      {
        WithinIs(log[..n], a, b, part[i]);
        assert part[i] in multiset(part);
        assert part[i] in multiset(log[..n]);
      }
    }
  }

  /** On a sorted log, neighbouring ranges concatenate. */
  lemma {:induction false} WithinConcat(log: seq<LogEvent>, a: int, mid: int, b: int)
    requires Sorted(log) && a <= mid + 1 && mid <= b
    ensures Within(log, a, mid) + Within(log, mid + 1, b) == Within(log, a, b)
  {
    if log != [] {
      var n := |log| - 1;
      var low, high, e := Within(log[..n], a, mid), Within(log[..n], mid + 1, b), log[n];
      WithinConcat(log[..n], a, mid, b);
      WithinLast(log, a, mid);
      WithinLast(log, mid + 1, b);
      WithinLast(log, a, b);
      if a <= e.block <= mid {
        WithinNone(log[..n], mid + 1, b);
        assert low + high == low;
      } else if mid < e.block <= b {
        assert low + (high + [e]) == (low + high) + [e];
      }
    }
  }

  lemma WithinOneMore(log: seq<LogEvent>, e: LogEvent, a: int, b: int)
    ensures Within(log + [e], a, b) == if a <= e.block <= b then Within(log, a, b) + [e] else Within(log, a, b)
  {
    assert (log + [e])[..|log|] == log;
    WithinLast(log + [e], a, b);
  }

  /** Filtering an answer to a wider range gives the answer to the narrower one. */
  lemma {:induction false} WithinNested(log: seq<LogEvent>, a: int, b: int, lo: int, hi: int)
    requires lo <= a && b <= hi
    ensures Within(Within(log, lo, hi), a, b) == Within(log, a, b)
  {
    if log != [] {
      var n := |log| - 1;
      WithinNested(log[..n], a, b, lo, hi);
      WithinLast(log, lo, hi);
      WithinLast(log, a, b);
      WithinOneMore(Within(log[..n], lo, hi), log[n], a, b);
    }
  }

  lemma {:induction false} WindowAnswers(log: seq<LogEvent>, from: int, to: int, m: int, n: nat)
    requires Sorted(log) && m >= 1 && from <= to
    requires 1 <= n <= |Windows(from, to, m)|
    ensures var ws := Windows(from, to, m);
      Flat(Answers(log, ws[..n])) == Within(log, ws[0].from, ws[n - 1].to) && ws[0].from <= ws[n - 1].to
  {
    var ws := Windows(from, to, m);
    WindowShape(from, to, m, n - 1);
    assert ws[..n][..n - 1] == ws[..n - 1];
    assert Answers(log, ws[..n])[..n - 1] == Answers(log, ws[..n - 1]);
    if n == 1 {
      assert Answers(log, ws[..0]) == [];
    } else {
      WindowAnswers(log, from, to, m, n - 1);
      WindowShape(from, to, m, n - 2);
      WithinConcat(log, ws[0].from, ws[n - 2].to, ws[n - 1].to);
    }
  }

  /** The joined and filtered answers of all ranges are the answer of one direct query: nothing is
      lost, repeated or reordered, whatever the look-back. */
  lemma PaginationIsExact(log: seq<LogEvent>, s: Search)
    requires Sorted(log) && s.Ranges().Ok?
    ensures Within(Flat(Answers(log, s.Ranges().value)), s.fromBlock, s.toBlock) == Within(log, s.fromBlock, s.toBlock)
  {
    var ranges, a, b := s.Ranges().value, s.fromBlock, s.toBlock;
    if s.lookBack.None? {
      var answer := Within(log, a, b);
      assert Answers(log, ranges) == [answer];
      assert Flat([answer]) == answer by {
        assert [answer][..0] == [];
        assert [] + answer == answer;
      }
      WithinNested(log, a, b, a, b);
    } else if a > b {
      WithinNone(log, a, b);
      assert Answers(log, ranges) == [];
    } else {
      var m := s.lookBack.value;
      WindowEnds(a, b, m);
      WindowAnswers(log, a, b, m, |ranges|);
      assert ranges[..|ranges|] == ranges;
      WithinNested(log, a, b, ranges[0].from, b);
    }
  }

  // ---- One attempt ----

  predicate AnyFails(fails: Failures, attempt: nat, ranges: seq<Range>) {
    exists r :: r in ranges && fails(attempt, r)
  }

  /** All queries of a chunk are issued together; one failure fails the chunk. */
  method QueryChunk(log: seq<LogEvent>, fails: Failures, attempt: nat, chunk: seq<Range>)
    returns (answers: Option<seq<seq<LogEvent>>>)
    ensures answers == if AnyFails(fails, attempt, chunk) then None else Some(Answers(log, chunk))
  {
    var got: seq<seq<LogEvent>> := [];
    var failed := false;
    for i := 0 to |chunk|
      invariant |got| == i && forall j :: 0 <= j < i ==> got[j] == Within(log, chunk[j].from, chunk[j].to)
      invariant failed == AnyFails(fails, attempt, chunk[..i])
    {
      assert chunk[..i + 1] == chunk[..i] + [chunk[i]];
      got := got + [Within(log, chunk[i].from, chunk[i].to)];
      failed := failed || fails(attempt, chunk[i]);
    }
    assert chunk[..|chunk|] == chunk;
    assert got == Answers(log, chunk);
    answers := if failed then None else Some(got);
  }

  lemma JoinOneMore(batches: seq<seq<Range>>, batch: seq<Range>)
    ensures Join(batches + [batch]) == Join(batches) + batch
  {
    assert (batches + [batch])[..|batches|] == batches;
  }

  lemma ChunkOf(log: seq<LogEvent>, fails: Failures, attempt: nat, ranges: seq<Range>, i: nat, next: nat)
    requires i <= next <= |ranges|
    ensures ranges[..next] == ranges[..i] + ranges[i..next]
    ensures Answers(log, ranges[..next]) == Answers(log, ranges[..i]) + Answers(log, ranges[i..next])
    ensures AnyFails(fails, attempt, ranges[..next]) <==>
      AnyFails(fails, attempt, ranges[..i]) || AnyFails(fails, attempt, ranges[i..next])
    ensures AnyFails(fails, attempt, ranges[i..next]) ==> AnyFails(fails, attempt, ranges)
  {
    assert ranges[..next] == ranges[..i] + ranges[i..next];
    assert ranges == ranges[..i] + ranges[i..next] + ranges[next..];
  }

  lemma BatchCount(count: nat, size: nat, n: nat)
    requires size >= 1 && n <= count * size < n + size
    ensures CeilDiv(n, size) == count
  {
    CeilIs(n, size, count);
  }

  /** Issues the ranges in batches of at most `concurrency`; stops at the first batch that fails. */
  method Attempt(log: seq<LogEvent>, s: Search, ranges: seq<Range>, fails: Failures, attempt: nat)
    returns (events: Option<seq<LogEvent>>, batches: seq<seq<Range>>)
    ensures events.Some? <==> !AnyFails(fails, attempt, ranges)
    ensures events.Some? ==> events.value == Within(Flat(Answers(log, ranges)), s.fromBlock, s.toBlock)
    ensures forall b :: b in batches ==> 1 <= |b| <= s.Concurrency()
    ensures s.Concurrency() == if s.concurrency == None || s.concurrency == Some(0) then 200 else s.concurrency.value
    ensures Join(batches) <= ranges
    ensures events.Some? ==> Join(batches) == ranges && |batches| == CeilDiv(|ranges|, s.Concurrency())
  {
    var concurrency := s.Concurrency();
    var allEvents: seq<seq<LogEvent>> := [];
    var i := 0;
    batches := [];
    while i < |ranges|
      invariant 0 <= i && i == |batches| * concurrency && i < |ranges| + concurrency
      invariant Join(batches) == ranges[..Min(i, |ranges|)]
      invariant allEvents == Answers(log, ranges[..Min(i, |ranges|)])
      invariant !AnyFails(fails, attempt, ranges[..Min(i, |ranges|)])
      invariant forall b :: b in batches ==> 1 <= |b| <= concurrency
    {
      var next := Min(i + concurrency, |ranges|);
      var chunk := ranges[i..next];
      ChunkOf(log, fails, attempt, ranges, i, next);
      JoinOneMore(batches, chunk);
      Distribute(|batches|, 1, concurrency);
      batches := batches + [chunk];
      var events := QueryChunk(log, fails, attempt, chunk);
      if events.None? {
        return None, batches;
      }
      allEvents := allEvents + events.value;
      i := i + concurrency;
    }
    assert ranges[..|ranges|] == ranges;
    BatchCount(|batches|, concurrency, |ranges|);
    events := Some(Within(Flat(allEvents), s.fromBlock, s.toBlock));
  }

  // ---- The call with its retries ----

  predicate AttemptFails(s: Search, fails: Failures, attempt: nat)
    requires s.Ranges().Ok?
  {
    AnyFails(fails, attempt, s.Ranges().value)
  }

  /** The last attempt a call may make that starts at attempt `k`. */
  function Last(k: nat): nat { if k < MAX_RETRIES then MAX_RETRIES else k }

  /** A call that starts at attempt `k` and makes `attempts` attempts ends with the first attempt that
      has no failing query, whose whole result it returns, or with the failure of the last one. */
  predicate Retried(log: seq<LogEvent>, s: Search, fails: Failures, k: nat,
                    r: Result<seq<LogEvent>, QueryError>, attempts: nat)
    requires s.Ranges().Ok?
  {
    && 1 <= attempts && k + attempts <= Last(k) + 1
    && (forall j :: k <= j < k + attempts - 1 ==> AttemptFails(s, fails, j))
    && match r
       case Ok(events) => !AttemptFails(s, fails, k + attempts - 1) && events == Within(log, s.fromBlock, s.toBlock)
       case Err(e) => AttemptFails(s, fails, Last(k)) && k + attempts == Last(k) + 1 && e == NodeError(Last(k))
  }

  lemma OneMoreAttempt(log: seq<LogEvent>, s: Search, fails: Failures, k: nat,
                       r: Result<seq<LogEvent>, QueryError>, attempts: nat)
    requires k < MAX_RETRIES && s.Ranges().Ok? && AttemptFails(s, fails, k)
    requires Retried(log, s, fails, k + 1, r, attempts)
    ensures Retried(log, s, fails, k, r, attempts + 1)
  {
  }

  /** A call from `retryCount` on. `attempts` counts the attempts it makes. A look-back of zero asks
      once, directly; a negative one is refused before anything is asked, unless the range is empty. */
  method PaginatedEventQuery(log: seq<LogEvent>, s: Search, fails: Failures, retryCount: nat)
    returns (r: Result<seq<LogEvent>, QueryError>, attempts: nat)
    requires Sorted(log)
    ensures s.lookBack == Some(0) ==>
      && attempts == 1
      && r == if fails(retryCount, Range(s.fromBlock, s.toBlock)) then Err(NodeError(retryCount))
              else Ok(Within(log, s.fromBlock, s.toBlock))
    ensures s.lookBack != Some(0) && s.Ranges().Err? ==> r == Err(BadLookBack) && attempts == 0
    ensures retryCount == 0 ==> attempts <= 4
    ensures retryCount == 0 && s.lookBack != Some(0) && s.Ranges().Ok? && r.Err? ==> attempts == 4
    ensures s.lookBack != Some(0) && s.Ranges().Ok? ==> Retried(log, s, fails, retryCount, r, attempts)
    ensures s.lookBack != Some(0) && s.Ranges().Ok? ==>
      (r.Err? <==> forall k :: retryCount <= k <= Last(retryCount) ==> AttemptFails(s, fails, k))
    decreases Last(retryCount) - retryCount
  {
    if s.lookBack == Some(0) {
      if fails(retryCount, Range(s.fromBlock, s.toBlock)) {
        return Err(NodeError(retryCount)), 1;
      }
      return Ok(Within(log, s.fromBlock, s.toBlock)), 1;
    }
    var ranges := GetPaginatedBlockRanges(s.fromBlock, s.toBlock, s.lookBack);
    if ranges.Err? {
      return Err(ranges.error), 0;
    }
    var events, _ := Attempt(log, s, ranges.value, fails, retryCount);
    if events.Some? {
      PaginationIsExact(log, s);
      return Ok(events.value), 1;
    }
    assert AttemptFails(s, fails, retryCount);
    if retryCount < MAX_RETRIES {
      var later;
      r, later := PaginatedEventQuery(log, s, fails, retryCount + 1);
      OneMoreAttempt(log, s, fails, retryCount, r, later);
      attempts := later + 1;
    } else {
      return Err(NodeError(retryCount)), 1;
    }
  }
}
