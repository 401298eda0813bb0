/** The adaptive log paginator: it walks a block range in chunks, halving the chunk when the
    provider refuses a range and retrying when it is rate limited. */
module LogFetcher {
  import opened Basics

  type Log = nat

  datatype Response = Logs(logs: seq<Log>) | RpcError(message: string)

  /** A provider may answer each call as it likes: call number, first block, last block. */
  type Provider = (nat, nat, nat) -> Response

  datatype FetchError = ProviderError(message: string) | BlockRangeTooLarge | TooManyResults

  datatype FetchResult = Fetched(logs: seq<Log>) | GaveUp(error: FetchError)

  const U64_MAX: nat := 0xFFFF_FFFF_FFFF_FFFF
  const MAX_RETRIES: nat := 5

  // ----- Reading the provider's errors

  predicate Contains(text: string, part: string) {
    part <= text || (text != [] && Contains(text[1..], part))
  }

  function ToLower(text: string): string {
    seq(|text|, i requires 0 <= i < |text| => if 'A' <= text[i] <= 'Z' then text[i] - 'A' + 'a' else text[i])
  }

  predicate IsRateLimitError(text: string) {
    || Contains(text, "rate limit") || Contains(text, "429")
    || Contains(text, "too many requests") || Contains(text, "throttl")
  }

  predicate IsRangeError(text: string) {
    || Contains(text, "block range") || Contains(text, "range too large") || Contains(text, "block range limit")
    || Contains(text, "too wide") || Contains(text, "query timeout") || Contains(text, "10 block range")
    || Contains(text, "10 block")
  }

  predicate IsResultLimitError(text: string) {
    || Contains(text, "10000 results") || Contains(text, "too many")
    || Contains(text, "response size") || Contains(text, "limit exceeded")
  }

  datatype ErrorKind = RateLimited | RangeRefused | ResultsRefused | Unknown

  /** The program's reading of an error: a rate limit first, then a result limit over a range
      limit, since that is the one it reports. */
  function Classify(message: string): ErrorKind {
    var text := ToLower(message);
    if IsRateLimitError(text) then RateLimited
    else if IsResultLimitError(text) then ResultsRefused
    else if IsRangeError(text) then RangeRefused
    else Unknown
  }

  /** A part is contained in a text exactly when the text reads as something, the part, something. */
  lemma {:induction false} ContainsExactly(text: string, part: string)
    ensures Contains(text, part) <==> exists i :: 0 <= i <= |text| && part <= text[i..]
    decreases |text|
  {
    assert text[0..] == text;
    if text != [] {
      ContainsExactly(text[1..], part);
      var rest := text[1..];
      if i :| 0 <= i <= |rest| && part <= rest[i..] { assert rest[i..] == text[i + 1..]; }
      if i :| 0 < i <= |text| && part <= text[i..] { assert rest[i - 1..] == text[i..]; }
    }
  }

  lemma {:induction false} Surrounded(before: string, part: string, after: string)
    ensures Contains(before + part + after, part)
  {
    assert (before + part + after)[|before|..] == part + after;
    ContainsExactly(before + part + after, part);
  }

  /** The words by which errors are known, wherever they stand. */
  lemma {:induction false} WordsRead(a: string, b: string)
    ensures forall w | w in ["rate limit", "429", "too many requests", "throttl"] :: IsRateLimitError(a + w + b)
    ensures forall w | w in ["10000 results", "too many", "response size", "limit exceeded"] ::
            IsResultLimitError(a + w + b)
    ensures forall w | w in ["block range", "range too large", "too wide", "query timeout", "10 block"] ::
            IsRangeError(a + w + b)
  {
    forall w: string ensures Contains(a + w + b, w) { Surrounded(a, w, b); }
  }

  /** Capitals make no difference. */
  lemma {:induction false} CaseIgnored(message: string)
    ensures Classify(ToLower(message)) == Classify(message)
  {
    assert ToLower(ToLower(message)) == ToLower(message);
  }

  // ----- One turn of the loop

  function SatAdd(a: nat, b: nat): nat {
    if a + b > U64_MAX then U64_MAX else a + b
  }

  function Min(a: nat, b: nat): nat {
    if a <= b then a else b
  }

  datatype FetchState =
    | Running(current: nat, chunk: nat, retries: nat, logs: seq<Log>)
    | Stopped(error: FetchError)

  /** The state after call number `n`, from a state that still has blocks to fetch. */
  function Turn(provider: Provider, classify: string -> ErrorKind, to: nat, n: nat, st: FetchState): (st': FetchState)
    requires st.Running? && st.chunk >= 1
    ensures st'.Running? ==> st'.chunk >= 1
  {
    var last := Min(SatAdd(st.current, st.chunk - 1), to);
    match provider(n, st.current, last)
    case Logs(logs) => st.(current := SatAdd(last, 1), logs := st.logs + logs)
    case RpcError(message) =>
      match classify(message)
      case RateLimited =>
        if st.retries + 1 > MAX_RETRIES then Stopped(ProviderError(message)) else st.(retries := st.retries + 1)
      case RangeRefused =>
        if st.chunk == 1 then Stopped(BlockRangeTooLarge) else st.(chunk := st.chunk / 2)
      case ResultsRefused =>
        if st.chunk == 1 then Stopped(TooManyResults) else st.(chunk := st.chunk / 2)
      case Unknown => Stopped(ProviderError(message))
  }

  /** The state after `n` turns; a loop that has stopped or run past the end stays put. */
  function After(provider: Provider, classify: string -> ErrorKind, to: nat, st: FetchState, n: nat): (st': FetchState)
    requires st.Running? && st.chunk >= 1
    ensures st'.Running? ==> st'.chunk >= 1
  {
    if n == 0 then st
    else
      var prev := After(provider, classify, to, st, n - 1);
      if prev.Running? && prev.current <= to then Turn(provider, classify, to, n - 1, prev) else prev
  }

  // ----- What a fetch returns

  /** The ranges follow each other without gap or overlap from `from` up to, not including, `next`. */
  ghost predicate Covers(ranges: seq<(nat, nat)>, from: nat, next: nat)
    decreases |ranges|
  {
    if ranges == [] then from == next
    else
      var (a, b) := ranges[|ranges| - 1];
      a <= b && b + 1 == next && Covers(ranges[..|ranges| - 1], from, a)
  }

  lemma {:induction false} CoversSnoc(ranges: seq<(nat, nat)>, from: nat, a: nat, b: nat)
    requires Covers(ranges, from, a) && a <= b
    ensures Covers(ranges + [(a, b)], from, b + 1)
  {
    assert (ranges + [(a, b)])[..|ranges|] == ranges;
  }

  /** The provider answers, when it does, from one range-additive source. */
  ghost predicate Faithful(provider: Provider, source: (nat, nat) -> seq<Log>) {
    && (forall n: nat, a: nat, b: nat :: provider(n, a, b).Logs? ==> provider(n, a, b).logs == source(a, b))
    && (forall a: nat, b: nat, c: nat {:trigger source(a, b), source(b + 1, c)} :: a <= b < c ==>
        source(a, b) + source(b + 1, c) == source(a, c))
  }

  // ----- What was asked and how it was answered

  /** One call: a range of blocks and the chunk size it was cut with. */
  datatype Query = Query(first: nat, last: nat, chunk: nat)

  /** How a call is taken: `None` for an answer. */
  function Kind(provider: Provider, classify: string -> ErrorKind, n: nat, a: nat, b: nat): Option<ErrorKind> {
    match provider(n, a, b)
    case Logs(_) => None
    case RpcError(message) => Some(classify(message))
  }

  predicate Refused(kind: Option<ErrorKind>) {
    kind == Some(RangeRefused) || kind == Some(ResultsRefused)
  }

  /** What is asked next: after an answer, from the next block on; after a rate limit, the same again;
      after a refusal, from the same block with half the chunk, if that can be halved. */
  ghost predicate Follows(kind: Option<ErrorKind>, q: Query, first: nat, chunk: nat) {
    match kind
    case None => first == q.last + 1 && chunk == q.chunk
    case Some(RateLimited) => first == q.first && chunk == q.chunk
    case Some(Unknown) => false
    case Some(_) => first == q.first && q.chunk > 1 && chunk == q.chunk / 2
  }

  ghost predicate Cut(q: Query, to: nat) {
    q.first <= to && q.chunk >= 1 && q.last == Min(q.first + q.chunk - 1, to)
  }

  /** The calls of a fetch, in order, and what is due after them. */
  ghost predicate Asked(provider: Provider, classify: string -> ErrorKind, to: nat, from: nat, chunkSize: nat,
                        asked: seq<Query>, first: nat, chunk: nat)
    decreases |asked|
  {
    if asked == [] then first == from && chunk == chunkSize
    else
      var n := |asked| - 1;
      var q := asked[n];
      && Cut(q, to) && Asked(provider, classify, to, from, chunkSize, asked[..n], q.first, q.chunk)
      && Follows(Kind(provider, classify, n, q.first, q.last), q, first, chunk)
  }

  /** The calls of a fetch that ended with the last of them. */
  ghost predicate AskedAll(provider: Provider, classify: string -> ErrorKind, to: nat, from: nat, chunkSize: nat,
                           asked: seq<Query>) {
    && asked != []
    && var n := |asked| - 1;
       && Cut(asked[n], to)
       && Asked(provider, classify, to, from, chunkSize, asked[..n], asked[n].first, asked[n].chunk)
  }

  /** How many of the calls were rate limited. */
  ghost function RateLimits(provider: Provider, classify: string -> ErrorKind, asked: seq<Query>): nat
    decreases |asked|
  {
    if asked == [] then 0
    else
      var n := |asked| - 1;
      RateLimits(provider, classify, asked[..n])
      + if Kind(provider, classify, n, asked[n].first, asked[n].last) == Some(RateLimited) then 1 else 0
  }

  /** A fetch is over and done: the last call was answered and reached the last block. */
  ghost predicate Completed(provider: Provider, classify: string -> ErrorKind, to: nat, asked: seq<Query>) {
    && asked != [] && RateLimits(provider, classify, asked) <= MAX_RETRIES
    && var n := |asked| - 1;
       Kind(provider, classify, n, asked[n].first, asked[n].last) == None && asked[n].last == to
  }

  /** Why a fetch gave up at its last call: a chunk of one block was refused, for the reason given; the
      error was unknown; or it was one rate limit too many. */
  ghost predicate Reason(provider: Provider, classify: string -> ErrorKind, asked: seq<Query>, e: FetchError) {
    && asked != []
    && var n := |asked| - 1;
       var q := asked[n];
       var kind := Kind(provider, classify, n, q.first, q.last);
       match e
       case BlockRangeTooLarge => kind == Some(RangeRefused) && q.chunk == 1
       case TooManyResults => kind == Some(ResultsRefused) && q.chunk == 1
       case ProviderError(message) =>
         && provider(n, q.first, q.last) == RpcError(message)
         && (kind == Some(Unknown)
             || (kind == Some(RateLimited) && RateLimits(provider, classify, asked) == MAX_RETRIES + 1))
  }

  /** A provider that refuses no single block for its range or size, returns no unknown errors, and
      limits its rate at no more than the calls `busy`, few enough to be retried. */
  ghost predicate Obliging(provider: Provider, classify: string -> ErrorKind, busy: set<nat>) {
    && (forall n: nat, a: nat :: !Refused(Kind(provider, classify, n, a, a)))
    && (forall n: nat, a: nat, b: nat :: Kind(provider, classify, n, a, b) != Some(Unknown))
    && (forall n: nat, a: nat, b: nat :: Kind(provider, classify, n, a, b) == Some(RateLimited) ==> n in busy)
    && |busy| <= MAX_RETRIES
  }

  ghost function Before(busy: set<nat>, n: nat): set<nat> {
    set k | k in busy && k < n
  }

  lemma {:induction false} LimitsAreBusy(provider: Provider, classify: string -> ErrorKind, asked: seq<Query>,
                                         busy: set<nat>)
    requires forall n: nat, a: nat, b: nat :: Kind(provider, classify, n, a, b) == Some(RateLimited) ==> n in busy
    ensures RateLimits(provider, classify, asked) <= |Before(busy, |asked|)|
    decreases |asked|
  {
    if asked != [] {
      var n := |asked| - 1;
      LimitsAreBusy(provider, classify, asked[..n], busy);
      var before, now := Before(busy, n), Before(busy, n + 1);
      if n in busy { assert now == before + {n}; } else { assert now == before; }
    }
  }

  lemma {:induction false} PartOfBusy(busy: set<nat>, n: nat)
    ensures |Before(busy, n)| <= |busy|
  {
    assert busy == Before(busy, n) + (busy - Before(busy, n));
  }

  /** Such a provider gives no reason to give up. */
  lemma {:induction false} ObligingIsNoReason(provider: Provider, classify: string -> ErrorKind, to: nat, from: nat,
                                              chunkSize: nat, asked: seq<Query>, e: FetchError, busy: set<nat>)
    requires Obliging(provider, classify, busy) && AskedAll(provider, classify, to, from, chunkSize, asked)
    ensures !Reason(provider, classify, asked, e)
  {
    LimitsAreBusy(provider, classify, asked, busy);
    PartOfBusy(busy, |asked|);
    var q := asked[|asked| - 1];
    assert q.chunk == 1 ==> q.last == q.first;
  }

  /** What the loop has asked when it is in state `st`: that state is what is due, and if there is
      nothing left to ask the fetch is complete. */
  ghost predicate Traced(provider: Provider, classify: string -> ErrorKind, to: nat, from: nat, chunkSize: nat,
                         asked: seq<Query>, st: FetchState)
    requires st.Running?
  {
    && Asked(provider, classify, to, from, chunkSize, asked, st.current, st.chunk)
    && st.retries == RateLimits(provider, classify, asked) <= MAX_RETRIES
    && (st.current > to ==>
          AskedAll(provider, classify, to, from, chunkSize, asked) && Completed(provider, classify, to, asked))
  }

  lemma {:induction false} NothingAsked(provider: Provider, classify: string -> ErrorKind, to: nat, from: nat,
                                        chunkSize: nat)
    requires from <= to
    ensures Traced(provider, classify, to, from, chunkSize, [], Running(from, chunkSize, 0, []))
  {
  }

  /** One turn of the loop is one more call, and its outcome is what the call's answer calls for. */
  lemma {:induction false} TurnAsks(provider: Provider, classify: string -> ErrorKind, to: nat, from: nat,
                                    chunkSize: nat, asked: seq<Query>, st: FetchState, q: Query)
    requires st.Running? && st.chunk >= 1 && st.current <= to < U64_MAX
    requires q == Query(st.current, Min(SatAdd(st.current, st.chunk - 1), to), st.chunk)
    requires Traced(provider, classify, to, from, chunkSize, asked, st)
    ensures AskedAll(provider, classify, to, from, chunkSize, asked + [q])
    ensures var st' := Turn(provider, classify, to, |asked|, st);
            if st'.Stopped? then Reason(provider, classify, asked + [q], st'.error)
            else Traced(provider, classify, to, from, chunkSize, asked + [q], st')
  {
    assert (asked + [q])[..|asked|] == asked;
  }

  lemma {:induction false} Log2Halves(n: nat)
    requires n >= 2
    ensures Log2(n) == Log2(n / 2) + 1
  {
  }

  /** For any chunk size of at least one and any behaviour of the provider, the fetch ends within
      a number of calls set by the blocks, the chunk size and the retries; on success the
      answered ranges partition the requested one in order, so that the result is what a single
      query of a range-additive source would give. It succeeds exactly when no call gives a reason to
      give up, so always with an obliging provider; an unlimited chunk is one call, never retried. */
  method GetLogsPaginated(provider: Provider, chunkSize: nat, from: nat, to: nat, ghost source: (nat, nat) -> seq<Log>,
                          ghost busy: set<nat>)
    returns (r: FetchResult, calls: nat, ghost ranges: seq<(nat, nat)>, ghost asked: seq<Query>)
    requires 1 <= chunkSize <= U64_MAX && from <= U64_MAX && to <= U64_MAX
    requires to < U64_MAX || chunkSize == U64_MAX
    ensures from > to ==> r == Fetched([]) && calls == 0
    ensures from <= to ==> calls <= (to - from + 1) + Log2(chunkSize) + MAX_RETRIES
    ensures from <= to && r.Fetched? ==> Covers(ranges, from, to + 1)
    ensures from <= to && r.Fetched? && Faithful(provider, source) ==> r.logs == source(from, to)
    ensures from <= to && chunkSize == U64_MAX ==>
              && calls == 1
              && match provider(0, from, to)
                 case Logs(logs) => r == Fetched(logs)
                 case RpcError(message) => r == GaveUp(ProviderError(message))
    ensures from <= to && chunkSize < U64_MAX ==>
              && |asked| == calls && AskedAll(provider, Classify, to, from, chunkSize, asked)
              && (r.Fetched? ==> Completed(provider, Classify, to, asked))
              && (r.GaveUp? ==> Reason(provider, Classify, asked, r.error))
    ensures from <= to && chunkSize < U64_MAX && Obliging(provider, Classify, busy) ==> r.Fetched?
    ensures from <= to && chunkSize < U64_MAX ==>
              var st := After(provider, Classify, to, Running(from, chunkSize, 0, []), calls);
              if r.Fetched? then st.Running? && st.current > to && st.logs == r.logs else st == Stopped(r.error)
  {
    ranges, calls, asked := [], 0, [];
    if from > to { return Fetched([]), 0, [], []; }
    if chunkSize == U64_MAX {
      var answer := provider(0, from, to);
      calls := 1;
      match answer {
        case Logs(logs) =>
          ranges := [(from, to)];
          CoversSnoc([], from, from, to);
          assert [] + [(from, to)] == ranges;
          return Fetched(logs), calls, ranges, asked;
        case RpcError(message) =>
          return GaveUp(ProviderError(message)), calls, ranges, asked;
      }
    }
    r, calls, ranges, asked := FetchChunks(provider, Classify, chunkSize, from, to, source);
    if r.GaveUp? && Obliging(provider, Classify, busy) {
      ObligingIsNoReason(provider, Classify, to, from, chunkSize, asked, r.error, busy);
    }
  }

  /** The loop over chunks, for any reading of the provider's errors. */
  method FetchChunks(provider: Provider, classify: string -> ErrorKind, chunkSize: nat, from: nat, to: nat,
                     ghost source: (nat, nat) -> seq<Log>)
    returns (r: FetchResult, calls: nat, ghost ranges: seq<(nat, nat)>, ghost asked: seq<Query>)
    requires 1 <= chunkSize && from <= to < U64_MAX
    ensures |asked| == calls && AskedAll(provider, classify, to, from, chunkSize, asked)
    ensures r.Fetched? ==> Completed(provider, classify, to, asked)
    ensures r.GaveUp? ==> Reason(provider, classify, asked, r.error)
    ensures calls <= (to - from + 1) + Log2(chunkSize) + MAX_RETRIES
    ensures r.Fetched? ==> Covers(ranges, from, to + 1) && LogsSoFar(provider, source, from, to + 1, r.logs)
    ensures var st := After(provider, classify, to, Running(from, chunkSize, 0, []), calls);
            if r.Fetched? then st.Running? && st.current > to && st.logs == r.logs else st == Stopped(r.error)
  {
    ranges, calls, asked := [], 0, [];
    var allLogs: seq<Log>, current: nat, chunk: nat, retries: nat := [], from, chunkSize, 0;
    ghost var start := Running(from, chunkSize, 0, []);
    assert LoopInv(provider, classify, to, start, source, calls, start, ranges);
    NothingAsked(provider, classify, to, from, chunkSize);
    while current <= to
      invariant 1 <= chunk
      invariant InLoop(provider, classify, to, start, source, calls, Running(current, chunk, retries, allLogs), ranges,
                       asked)
      decreases Budget(to, Running(current, chunk, retries, allLogs))
    {
      var stop;
      stop, current, chunk, retries, allLogs, ranges, asked :=
        OneTurn(provider, classify, to, calls, current, chunk, retries, allLogs, start, source, ranges, asked);
      calls := calls + 1;
      if stop.Some? { return GaveUp(stop.value), calls, ranges, asked; }
    }
    r := Fetched(allLogs);
  }

  /** What holds after `calls` calls, with the calls themselves. */
  ghost predicate InLoop(provider: Provider, classify: string -> ErrorKind, to: nat, start: FetchState,
                         source: (nat, nat) -> seq<Log>, calls: nat, st: FetchState, ranges: seq<(nat, nat)>,
                         asked: seq<Query>)
    requires start.Running? && start.chunk >= 1 && st.Running? && st.chunk >= 1
  {
    && LoopInv(provider, classify, to, start, source, calls, st, ranges)
    && |asked| == calls && Traced(provider, classify, to, start.current, start.chunk, asked, st)
  }

  /** One turn of the loop: it goes on with less left to do, or stops for a reason. */
  method OneTurn(provider: Provider, classify: string -> ErrorKind, to: nat, n: nat, current: nat, chunk: nat,
                 retries: nat, logs: seq<Log>, ghost start: FetchState, ghost source: (nat, nat) -> seq<Log>,
                 ghost ranges: seq<(nat, nat)>, ghost asked: seq<Query>)
    returns (stop: Option<FetchError>, current': nat, chunk': nat, retries': nat, logs': seq<Log>,
             ghost ranges': seq<(nat, nat)>, ghost asked': seq<Query>)
    requires start.Running? && start.chunk >= 1 && chunk >= 1 && current <= to < U64_MAX
    requires InLoop(provider, classify, to, start, source, n, Running(current, chunk, retries, logs), ranges, asked)
    ensures |asked'| == n + 1 <= Budget(to, start)
    ensures stop.None? ==>
              && chunk' >= 1
              && InLoop(provider, classify, to, start, source, n + 1, Running(current', chunk', retries', logs'),
                        ranges', asked')
              && Budget(to, Running(current', chunk', retries', logs'))
                 < Budget(to, Running(current, chunk, retries, logs))
              && 0 <= Budget(to, Running(current, chunk, retries, logs))
    ensures stop.Some? ==>
              && After(provider, classify, to, start, n + 1) == Stopped(stop.value)
              && AskedAll(provider, classify, to, start.current, start.chunk, asked')
              && Reason(provider, classify, asked', stop.value)
  {
    ghost var st := Running(current, chunk, retries, logs);
    ghost var q := Query(current, Min(SatAdd(current, chunk - 1), to), chunk);
    TurnAsks(provider, classify, to, start.current, start.chunk, asked, st, q);
    LoopStep(provider, classify, to, start, source, n, st, ranges);
    stop, current', chunk', retries', logs' := OneCall(provider, classify, to, n, current, chunk, retries, logs);
    ranges', asked' := Extend(ranges, current, current'), asked + [q];
  }

  ghost function Extend(ranges: seq<(nat, nat)>, before: nat, after: nat): seq<(nat, nat)> {
    if before < after then ranges + [(before, after - 1)] else ranges
  }

  /** What holds of the loop's variables after `calls` calls. */
  ghost predicate LoopInv(provider: Provider, classify: string -> ErrorKind, to: nat, start: FetchState,
                          source: (nat, nat) -> seq<Log>,
                          calls: nat, st: FetchState, ranges: seq<(nat, nat)>)
    requires start.Running? && start.chunk >= 1 && st.Running? && st.chunk >= 1
  {
    && start.current <= st.current <= to + 1 && st.retries <= MAX_RETRIES
    && After(provider, classify, to, start, calls) == st
    && calls + Budget(to, st) <= Budget(to, start)
    && Covers(ranges, start.current, st.current)
    && LogsSoFar(provider, source, start.current, st.current, st.logs)
  }

  lemma {:induction false} LoopStep(provider: Provider, classify: string -> ErrorKind, to: nat, start: FetchState,
                                    source: (nat, nat) -> seq<Log>,
                                    calls: nat, st: FetchState, ranges: seq<(nat, nat)>)
    requires start.Running? && start.chunk >= 1 && st.Running? && st.chunk >= 1 && st.current <= to < U64_MAX
    requires LoopInv(provider, classify, to, start, source, calls, st, ranges)
    ensures calls + 1 <= Budget(to, start)
    ensures var st' := Turn(provider, classify, to, calls, st);
            if st'.Running? then
              && Budget(to, st') < Budget(to, st) && 0 <= Budget(to, st)
              && LoopInv(provider, classify, to, start, source, calls + 1, st', Extend(ranges, st.current, st'.current))
            else After(provider, classify, to, start, calls + 1) == st'
  {
    AfterNext(provider, classify, to, start, calls);
    TurnProgress(provider, classify, to, calls, st);
    TurnCovers(provider, classify, to, calls, st, ranges, start.current, source);
  }

  /** One call to the provider and what the loop makes of the answer. */
  method OneCall(provider: Provider, classify: string -> ErrorKind, to: nat, n: nat, current: nat, chunk: nat,
                 retries: nat, logs: seq<Log>)
    returns (stop: Option<FetchError>, current': nat, chunk': nat, retries': nat, logs': seq<Log>)
    requires chunk >= 1
    ensures Turn(provider, classify, to, n, Running(current, chunk, retries, logs))
            == if stop.Some? then Stopped(stop.value) else Running(current', chunk', retries', logs')
    ensures stop.Some? ==> current' == current
  {
    stop, current', chunk', retries', logs' := None, current, chunk, retries, logs;
    var last := Min(SatAdd(current, chunk - 1), to);
    match provider(n, current, last) {
      case Logs(more) =>
        logs' := logs + more;
        current' := SatAdd(last, 1);
      case RpcError(message) =>
        var kind := classify(message);
        if kind == RateLimited {
          retries' := retries + 1;
          if retries' > MAX_RETRIES { stop := Some(ProviderError(message)); }
        } else if kind == RangeRefused || kind == ResultsRefused {
          chunk' := if chunk / 2 >= 1 then chunk / 2 else 1;
          if chunk' == 1 && chunk == 1 {
            stop := Some(if kind == ResultsRefused then TooManyResults else BlockRangeTooLarge);
          }
        } else {
          stop := Some(ProviderError(message));
        }
    }
  }

  /** The turns a state has left at most. */
  function Budget(to: nat, st: FetchState): int
    requires st.Running? && st.chunk >= 1
  {
    (to + 1 - st.current) + Log2(st.chunk) + (MAX_RETRIES - st.retries)
  }

  /** Every turn that does not stop uses up some of the budget. */
  lemma {:induction false} TurnProgress(provider: Provider, classify: string -> ErrorKind, to: nat, n: nat,
                                        st: FetchState)
    requires st.Running? && st.chunk >= 1 && st.current <= to < U64_MAX && st.retries <= MAX_RETRIES
    ensures Budget(to, st) >= 1
    ensures var st' := Turn(provider, classify, to, n, st);
            st'.Running? ==>
              st'.retries <= MAX_RETRIES && st.current <= st'.current <= to + 1 && Budget(to, st') + 1 <= Budget(to, st)
  {
    if st.chunk >= 2 { Log2Halves(st.chunk); }
  }

  /** A turn that advances covers exactly the blocks it advances over, with their logs. */
  lemma {:induction false} TurnCovers(provider: Provider, classify: string -> ErrorKind, to: nat, n: nat,
                                      st: FetchState,
                                      ranges: seq<(nat, nat)>, from: nat, source: (nat, nat) -> seq<Log>)
    requires st.Running? && st.chunk >= 1 && from <= st.current <= to < U64_MAX
    requires Covers(ranges, from, st.current) && LogsSoFar(provider, source, from, st.current, st.logs)
    ensures var st' := Turn(provider, classify, to, n, st);
            st'.Running? ==>
              && LogsSoFar(provider, source, from, st'.current, st'.logs)
              && (st.current < st'.current ==> Covers(ranges + [(st.current, st'.current - 1)], from, st'.current))
  {
    var last := Min(SatAdd(st.current, st.chunk - 1), to);
    if provider(n, st.current, last).Logs? {
      Joined(provider, source, from, st.current, last, st.logs, n);
      CoversSnoc(ranges, from, st.current, last);
    }
  }

  lemma {:induction false} AfterNext(provider: Provider, classify: string -> ErrorKind, to: nat, start: FetchState,
                                     n: nat)
    requires start.Running? && start.chunk >= 1
    requires After(provider, classify, to, start, n).Running? && After(provider, classify, to, start, n).current <= to
    ensures After(provider, classify, to, start, n + 1)
            == Turn(provider, classify, to, n, After(provider, classify, to, start, n))
  {
  }

  /** What has been fetched is what one query up to the current block would give. */
  ghost predicate LogsSoFar(provider: Provider, source: (nat, nat) -> seq<Log>, from: nat, next: nat, logs: seq<Log>) {
    Faithful(provider, source) ==> logs == if next <= from then [] else source(from, next - 1)
  }

  lemma {:induction false} Joined(provider: Provider, source: (nat, nat) -> seq<Log>, from: nat, current: nat,
                                  last: nat, logs: seq<Log>, n: nat)
    requires LogsSoFar(provider, source, from, current, logs) && from <= current <= last
    requires provider(n, current, last).Logs?
    ensures LogsSoFar(provider, source, from, last + 1, logs + provider(n, current, last).logs)
  {
    if Faithful(provider, source) {
      if current == from {
        assert [] + source(current, last) == source(current, last);
      } else {
        var b := current - 1;
        assert source(from, b) + source(b + 1, last) == source(from, last);
      }
    }
  }

  /** The bound on the last block is needed: up to the largest block number, even a provider
      that always answers keeps the loop turning for ever. */
  lemma {:induction false} LastBlockNeverEnds(provider: Provider, classify: string -> ErrorKind, chunkSize: nat,
                                              from: nat, n: nat)
    requires 1 <= chunkSize < U64_MAX && from <= U64_MAX
    requires forall k, a, b :: provider(k, a, b).Logs?
    ensures var st := After(provider, classify, U64_MAX, Running(from, chunkSize, 0, []), n);
            st.Running? && st.current <= U64_MAX
  {
    if n > 0 { LastBlockNeverEnds(provider, classify, chunkSize, from, n - 1); }
  }

  // ----- The number of retries

  lemma {:induction false} AllLimited(provider: Provider, classify: string -> ErrorKind, asked: seq<Query>)
    requires forall n: nat, a: nat, b: nat :: Kind(provider, classify, n, a, b) == Some(RateLimited)
    ensures RateLimits(provider, classify, asked) == |asked|
    decreases |asked|
  {
    if asked != [] { AllLimited(provider, classify, asked[..|asked| - 1]); }
  }

  /** A provider that is always too busy is called six times, the last of them in vain. */
  method SixthLimitGivesUp(chunkSize: nat, from: nat, to: nat) returns (r: FetchResult, calls: nat)
    requires 1 <= chunkSize < U64_MAX && from <= to < U64_MAX
    ensures r == GaveUp(ProviderError("429")) && calls == 6
  {
    var busy: Provider := (n, a, b) => RpcError("429");
    ReadsBusy();
    ghost var ranges, asked;
    r, calls, ranges, asked := GetLogsPaginated(busy, chunkSize, from, to, (a, b) => [], {});
    AllLimited(busy, Classify, asked);
  }

  lemma {:induction false} ReadsBusy()
    ensures Classify("429") == RateLimited
  {
    assert ToLower("429") == "429";
    assert Contains("429", "429");
  }
}
