/**
  The quote summary cache of the Yahoo Finance client: at most 256 entries that live for 30 seconds;
  when a new ticker finds it full, the whole cache is cleared.
 */
module SummaryCache {
  import opened Decimal

  const MAX_ENTRIES := 256

  /** Thirty seconds, in the nanoseconds that the monotonic clock counts. */
  const TTL: nat := 30_000_000_000

  type Instant = nat

  /** The decoded response is stored and handed out, never looked into. */
  type Summary = nat

  datatype Cached = Cached(summary: Option<Summary>, expires: Instant)
  type Entries = map<string, Cached>

  function Found(entries: Entries, ticker: string, now: Instant): Option<Summary> {
    if ticker in entries && now <= entries[ticker].expires then entries[ticker].summary else None
  }

  function AfterLookup(entries: Entries, ticker: string, now: Instant): Entries {
    if ticker in entries && now > entries[ticker].expires then entries - {ticker} else entries
  }

  predicate Clears(entries: Entries, ticker: string) {
    ticker !in entries && |entries| == MAX_ENTRIES
  }

  function AfterStore(entries: Entries, ticker: string, summary: Option<Summary>, now: Instant): Entries {
    (if Clears(entries, ticker) then map[] else entries)[ticker := Cached(summary, now + TTL)]
  }

  class YFinance {
    var summaryCache: Entries

    constructor ()
      ensures summaryCache == map[]
    {
      summaryCache := map[];
    }

    method CachedSummary(ticker: string, now: Instant) returns (r: Option<Summary>)
      modifies this
      ensures r == Found(old(summaryCache), ticker, now)
      ensures summaryCache == AfterLookup(old(summaryCache), ticker, now)
    {
      if ticker !in summaryCache {
        return None;
      }
      var cached := summaryCache[ticker];
      if now > cached.expires {
        summaryCache := summaryCache - {ticker};
        return None;
      }
      return cached.summary;
    }

    method CacheSummary(ticker: string, summary: Option<Summary>, now: Instant)
      modifies this
      ensures summaryCache == AfterStore(old(summaryCache), ticker, summary, now)
    {
      if ticker !in summaryCache && |summaryCache| == MAX_ENTRIES {
        summaryCache := map[];
      }
      summaryCache := summaryCache[ticker := Cached(summary, now + TTL)];
    }
  }

  // ----- Runs, compared with a log that forgets nothing

  datatype Op = Lookup(ticker: string, now: Instant) | Store(ticker: string, summary: Option<Summary>, now: Instant)

  function Run(ops: seq<Op>): Entries {
    if ops == [] then map[]
    else
      var before := Run(ops[..|ops| - 1]);
      match ops[|ops| - 1]
      case Lookup(ticker, now) => AfterLookup(before, ticker, now)
      case Store(ticker, summary, now) => AfterStore(before, ticker, summary, now)
  }

  function Clock(ops: seq<Op>): Instant {
    if ops == [] then 0 else ops[|ops| - 1].now
  }

  /** Operations read a non-decreasing clock. */
  predicate InOrder(ops: seq<Op>) {
    ops == [] || (InOrder(ops[..|ops| - 1]) && Clock(ops[..|ops| - 1]) <= Clock(ops))
  }

  /** The latest store for the ticker, however long ago. */
  function LatestStore(ops: seq<Op>, ticker: string): Option<Op> {
    if ops == [] then None
    else if ops[|ops| - 1].Store? && ops[|ops| - 1].ticker == ticker then Some(ops[|ops| - 1])
    else LatestStore(ops[..|ops| - 1], ticker)
  }

  /** The latest store for the ticker has expired: it is more than thirty seconds old. */
  ghost predicate ExpiredAt(ops: seq<Op>, ticker: string, now: Instant) {
    && LatestStore(ops, ticker).Some? && LatestStore(ops, ticker).value.Store?
    && now > LatestStore(ops, ticker).value.now + 30_000_000_000
  }

  /**
    Which tickers have an entry, from the operations alone: a lookup that finds its ticker expired removes
    it, and a store for one that has no entry clears all others if there are 256 of them.
   */
  ghost function Held(ops: seq<Op>): set<string> {
    if ops == [] then {}
    else
      var init := ops[..|ops| - 1];
      match ops[|ops| - 1]
      case Lookup(ticker, now) => if ExpiredAt(init, ticker, now) then Held(init) - {ticker} else Held(init)
      case Store(ticker, _, _) =>
        if ticker !in Held(init) && |Held(init)| == 256 then {ticker} else Held(init) + {ticker}
  }

  ghost predicate IsLatestOf(entries: Entries, ops: seq<Op>, ticker: string) {
    var latest := LatestStore(ops, ticker);
    && ticker in entries && latest.Some? && latest.value.Store?
    && entries[ticker] == Cached(latest.value.summary, latest.value.now + 30_000_000_000)
  }

  /** The whole cache, on every run: the entries are those of the held tickers, each its ticker's latest store. */
  lemma {:induction false} CacheIsHeld(ops: seq<Op>)
    ensures Run(ops).Keys == Held(ops)
    ensures forall ticker :: ticker in Held(ops) ==> IsLatestOf(Run(ops), ops, ticker)
  {
    if ops != [] {
      CacheIsHeld(ops[..|ops| - 1]);
      assert |Run(ops[..|ops| - 1])| == |Run(ops[..|ops| - 1]).Keys|;
    }
  }

  /** Another ticker's store has cleared the cache since the latest store for this one. */
  ghost predicate ClearedSince(ops: seq<Op>, ticker: string) {
    ops != [] &&
    (var init, last := ops[..|ops| - 1], ops[|ops| - 1];
     if last.Store? && last.ticker == ticker then false
     else ClearedSince(init, ticker) || (last.Store? && last.ticker !in Held(init) && |Held(init)| == 256))
  }

  /** An entry is the latest store; a latest store without an entry was cleared away or has expired. */
  ghost predicate Mirrors(ops: seq<Op>, ticker: string) {
    var entries, latest := Run(ops), LatestStore(ops, ticker);
    && (latest.Some? ==> latest.value.Store?)
    && if ticker in entries
       then latest.Some? && !ClearedSince(ops, ticker) &&
            entries[ticker] == Cached(latest.value.summary, latest.value.now + 30_000_000_000)
       else latest.Some? && !ClearedSince(ops, ticker) ==> Clock(ops) > latest.value.now + 30_000_000_000
  }

  /** What the log answers: the latest store, if it is not past its expiry and no clear has followed it. */
  ghost function LogAnswer(ops: seq<Op>, ticker: string, now: Instant): Option<Summary> {
    var latest := LatestStore(ops, ticker);
    if latest.Some? && latest.value.Store? && now <= latest.value.now + 30_000_000_000 && !ClearedSince(ops, ticker)
    then latest.value.summary
    else None
  }

  /** On every run a lookup answers exactly what the log says. So a live entry is missed only after a clear. */
  lemma {:induction false} LookupIsLatestStore(ops: seq<Op>, ticker: string, now: Instant)
    requires InOrder(ops) && Clock(ops) <= now
    ensures Mirrors(ops, ticker)
    ensures Found(Run(ops), ticker, now) == LogAnswer(ops, ticker, now)
  {
    if ops != [] {
      var init := ops[..|ops| - 1];
      LookupIsLatestStore(init, ticker, Clock(init));
      CacheIsHeld(init);
      assert |Run(init)| == |Run(init).Keys|;
    }
  }

  function StoredTickers(ops: seq<Op>): set<string> {
    set i | 0 <= i < |ops| && ops[i].Store? :: ops[i].ticker
  }

  lemma StoredTickersSnoc(ops: seq<Op>)
    requires ops != []
    ensures var last := ops[|ops| - 1];
            StoredTickers(ops) == StoredTickers(ops[..|ops| - 1]) + if last.Store? then {last.ticker} else {}
  {
    var init := ops[..|ops| - 1];
    forall t | t in StoredTickers(ops) ensures t in StoredTickers(init) || t == ops[|ops| - 1].ticker {
      var i :| 0 <= i < |ops| && ops[i].Store? && ops[i].ticker == t;
      assert i < |init| ==> init[i] == ops[i];
    }
    forall t | t in StoredTickers(init) ensures t in StoredTickers(ops) {
      var i :| 0 <= i < |init| && init[i].Store? && init[i].ticker == t;
      assert ops[i] == init[i];
    }
  }

  /** The cache is bounded on every run, and holds only tickers that were stored. */
  lemma {:induction false} CacheIsBounded(ops: seq<Op>)
    ensures |Run(ops)| <= 256 && Run(ops).Keys <= StoredTickers(ops)
  {
    if ops != [] {
      var init, last := ops[..|ops| - 1], ops[|ops| - 1];
      CacheIsBounded(init);
      StoredTickersSnoc(ops);
      if last.Store? {
        var base := if Clears(Run(init), last.ticker) then map[] else Run(init);
        assert Run(ops).Keys == base.Keys + {last.ticker};
      } else {
        assert Run(ops).Keys <= Run(init).Keys;
        SubsetSize(Run(ops).Keys, Run(init).Keys);
      }
    }
  }

  lemma SubsetSize<T>(a: set<T>, b: set<T>)
    requires a <= b
    ensures |a| <= |b|
  {
    assert b == a + (b - a);
  }

  /** A clear takes a run that stores more than 256 tickers; until then nothing live is ever missed. */
  lemma {:induction false} NoClearForFewTickers(ops: seq<Op>, ticker: string)
    requires |StoredTickers(ops)| <= 256
    ensures !ClearedSince(ops, ticker)
  {
    if ops != [] {
      var init, last := ops[..|ops| - 1], ops[|ops| - 1];
      StoredTickersSnoc(ops);
      SubsetSize(StoredTickers(init), StoredTickers(ops));
      NoClearForFewTickers(init, ticker);
      CacheIsBounded(init);
      CacheIsHeld(init);
      if last.Store? && last.ticker !in Held(init) && |Held(init)| == 256 {
        SubsetSize(Held(init) + {last.ticker}, StoredTickers(ops));
        assert false;
      }
    }
  }
}
