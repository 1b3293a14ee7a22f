/**
  How many requests that begin within a stretch of time can end in a 401.
 */
module RejectionBurst {
  import opened RateLimit
  import opened Permits
  import opened RejectionCap

  /** The latest time at which a request has begun. */
  function BeginClock(steps: seq<Step>): Instant {
    if steps == [] then 0
    else
      var before, last := BeginClock(steps[..|steps| - 1]), steps[|steps| - 1];
      if last.Begin? && last.now > before then last.now else before
  }

  /** Requests begin at times that never go back. */
  predicate BeginsInOrder(steps: seq<Step>) {
    steps == [] ||
    (var last := steps[|steps| - 1];
     && BeginsInOrder(steps[..|steps| - 1])
     && (last.Begin? ==> BeginClock(steps[..|steps| - 1]) <= last.now))
  }

  /** When the windows of a key opened, the oldest first. */
  function Openings(cfg: Config, steps: seq<Step>, key: Addr): seq<Instant> {
    if steps == [] then []
    else
      var init, last := steps[..|steps| - 1], steps[|steps| - 1];
      var before := Openings(cfg, init, key);
      if last.Begin? && last.key == key && Opens(cfg, Play(cfg, init), key, last.now)
      then before + [last.now] else before
  }

  /** Windows open at least a window length apart, and the last one is the key's window or has expired. */
  ghost predicate Apart(cfg: Config, l: Ledger, openings: seq<Instant>, key: Addr, clock: Instant) {
    && |openings| == l.Epoch(key)
    && (forall i, j :: 0 <= i < j < |openings| ==> openings[i] + cfg.window <= openings[j])
    && (key in l.windows ==> openings != [] && l.windows[key].started == openings[|openings| - 1] <= clock)
    && (key !in l.windows && openings != [] ==> openings[|openings| - 1] + cfg.window <= clock)
  }

  lemma OpensApart(cfg: Config, l: Ledger, openings: seq<Instant>, key: Addr, clock: Instant, now: Instant)
    requires Apart(cfg, l, openings, key, clock) && clock <= now && Opens(cfg, l, key, now)
    ensures Apart(cfg, Next(cfg, l, Begin(key, now)), openings + [now], key, now)
  {
    assert Next(cfg, l, Begin(key, now)).windows[key].started == now;
  }

  lemma StaysApart(cfg: Config, l: Ledger, openings: seq<Instant>, key: Addr, clock: Instant, step: Step)
    requires Apart(cfg, l, openings, key, clock) && (step.Begin? ==> clock <= step.now)
    requires step.Begin? && step.key == key ==> !Opens(cfg, l, key, step.now)
    ensures Apart(cfg, Next(cfg, l, step), openings, key, if step.Begin? then step.now else clock)
  {
  }

  lemma {:induction false} WindowsOpenApart(cfg: Config, steps: seq<Step>, key: Addr)
    requires BeginsInOrder(steps)
    ensures Apart(cfg, Play(cfg, steps), Openings(cfg, steps, key), key, BeginClock(steps))
  {
    if steps != [] {
      var init, last := steps[..|steps| - 1], steps[|steps| - 1];
      var l, openings := Play(cfg, init), Openings(cfg, init, key);
      WindowsOpenApart(cfg, init, key);
      if last.Begin? && last.key == key && Opens(cfg, l, key, last.now) {
        OpensApart(cfg, l, openings, key, BeginClock(init), last.now);
      } else {
        StaysApart(cfg, l, openings, key, BeginClock(init), last);
      }
    }
  }

  lemma {:induction false} OpeningsBefore(cfg: Config, steps: seq<Step>, n: nat, key: Addr)
    requires n <= |steps|
    ensures Openings(cfg, steps[..n], key) <= Openings(cfg, steps, key)
  {
    if n < |steps| {
      OpeningsBefore(cfg, steps[..|steps| - 1], n, key);
      assert steps[..|steps| - 1][..n] == steps[..n];
    } else {
      assert steps[..n] == steps;
    }
  }

  lemma {:induction false} InOrderBefore(steps: seq<Step>, n: nat)
    requires BeginsInOrder(steps) && n <= |steps|
    ensures BeginsInOrder(steps[..n])
  {
    if n < |steps| {
      InOrderBefore(steps[..|steps| - 1], n);
      assert steps[..|steps| - 1][..n] == steps[..n];
    } else {
      assert steps[..n] == steps;
    }
  }

  // ----- Requests that begin within a stretch of time

  /** The step is an admitted request of the key that begins within a window length from then on. */
  ghost predicate BeginsWithin(cfg: Config, steps: seq<Step>, n: nat, key: Addr, from: Instant) {
    && n < |steps| && steps[n].Begin? && steps[n].key == key && from <= steps[n].now <= from + cfg.window
    && Grants(cfg, Play(cfg, steps[..n]).windows, key, steps[n].now)
  }

  /** Some such request got a permit of this window. */
  ghost predicate Touched(cfg: Config, steps: seq<Step>, key: Addr, from: Instant, epoch: nat) {
    exists n: nat :: BeginsWithin(cfg, steps, n, key, from) && Play(cfg, steps[..n + 1]).Epoch(key) == epoch
  }

  ghost predicate OpenAt(cfg: Config, openings: seq<Instant>, epoch: nat, now: Instant) {
    1 <= epoch <= |openings| && openings[epoch - 1] <= now < openings[epoch - 1] + cfg.window
  }

  lemma BeginIsInWindow(cfg: Config, l: Ledger, openings: seq<Instant>, key: Addr, now: Instant)
    requires cfg.window > 0 && Apart(cfg, Next(cfg, l, Begin(key, now)), openings, key, now)
    ensures OpenAt(cfg, openings, Next(cfg, l, Begin(key, now)).Epoch(key), now)
  {
    assert Live(cfg, Next(cfg, l, Begin(key, now)).windows[key], now);
  }

  lemma GrantIsInWindow(cfg: Config, steps: seq<Step>, n: nat, key: Addr)
    requires cfg.window > 0 && BeginsInOrder(steps) && n < |steps| && steps[n].Begin? && steps[n].key == key
    ensures OpenAt(cfg, Openings(cfg, steps, key), Play(cfg, steps[..n + 1]).Epoch(key), steps[n].now)
  {
    var before, upTo := steps[..n], steps[..n + 1];
    assert upTo == before + [steps[n]];
    PlayOneMore(cfg, before, steps[n]);
    InOrderBefore(steps, n + 1);
    WindowsOpenApart(cfg, upTo, key);
    assert upTo[..|upTo| - 1] == before;
    BeginIsInWindow(cfg, Play(cfg, before), Openings(cfg, upTo, key), key, steps[n].now);
    OpeningsBefore(cfg, steps, n + 1, key);
  }

  lemma OpenWithinALength(cfg: Config, openings: seq<Instant>, d: nat, e: nat, s: Instant, t: Instant)
    requires forall i, j :: 0 <= i < j < |openings| ==> openings[i] + cfg.window <= openings[j]
    requires OpenAt(cfg, openings, d, s) && OpenAt(cfg, openings, e, t) && d < e && t <= s + cfg.window
    ensures e == d + 1
  {
    assert openings[d - 1] + cfg.window <= openings[d];
  }

  lemma TouchedIsOpen(cfg: Config, steps: seq<Step>, key: Addr, from: Instant, epoch: nat) returns (t: Instant)
    requires cfg.window > 0 && BeginsInOrder(steps) && Touched(cfg, steps, key, from, epoch)
    ensures from <= t <= from + cfg.window && OpenAt(cfg, Openings(cfg, steps, key), epoch, t)
  {
    var n: nat :| BeginsWithin(cfg, steps, n, key, from) && Play(cfg, steps[..n + 1]).Epoch(key) == epoch;
    GrantIsInWindow(cfg, steps, n, key);
    t := steps[n].now;
  }

  /** Windows that are touched within one window length follow each other. */
  lemma TouchedAreAdjacent(cfg: Config, steps: seq<Step>, key: Addr, from: Instant, d: nat, e: nat)
    requires cfg.window > 0 && BeginsInOrder(steps) && d < e
    requires Touched(cfg, steps, key, from, d) && Touched(cfg, steps, key, from, e)
    ensures e == d + 1
  {
    var s := TouchedIsOpen(cfg, steps, key, from, d);
    var t := TouchedIsOpen(cfg, steps, key, from, e);
    WindowsOpenApart(cfg, steps, key);
    OpenWithinALength(cfg, Openings(cfg, steps, key), d, e, s, t);
  }

  ghost predicate OnlyTouches(cfg: Config, steps: seq<Step>, key: Addr, from: Instant, epoch: nat) {
    forall e: nat :: Touched(cfg, steps, key, from, e) ==> e == epoch || e == epoch + 1
  }

  lemma AdjacentMeansTwo(touched: nat -> bool) returns (epoch: nat)
    requires forall d: nat, e: nat :: d < e && touched(d) && touched(e) ==> e == d + 1
    ensures forall e: nat :: touched(e) ==> e == epoch || e == epoch + 1
  {
    epoch := 0;
    if e: nat :| touched(e) {
      epoch := if e > 0 && touched(e - 1) then e - 1 else e;
    }
  }

  lemma TwoWindows(cfg: Config, steps: seq<Step>, key: Addr, from: Instant) returns (epoch: nat)
    requires cfg.window > 0 && BeginsInOrder(steps)
    ensures OnlyTouches(cfg, steps, key, from, epoch)
  {
    ghost var touched: nat -> bool := (e: nat) => Touched(cfg, steps, key, from, e);
    forall d: nat, e: nat | d < e && touched(d) && touched(e) ensures e == d + 1 {
      TouchedAreAdjacent(cfg, steps, key, from, d, e);
    }
    epoch := AdjacentMeansTwo(touched);
    forall e: nat | Touched(cfg, steps, key, from, e) ensures e == epoch || e == epoch + 1 {
      assert touched(e);
    }
  }

  /** The step ends a running request in a 401, and that request may be one that began within the stretch. */
  ghost predicate RejectsWithin(cfg: Config, steps: seq<Step>, n: nat, key: Addr, from: Instant) {
    && n < |steps| && steps[n].Finish? && steps[n].unauthorized && steps[n].permit.key == key
    && steps[n].permit in Play(cfg, steps[..n]).held
    && Touched(cfg, steps, key, from, steps[n].permit.epoch)
  }

  /** How many of the first `n` steps do. */
  ghost function Rejections(cfg: Config, steps: seq<Step>, key: Addr, from: Instant, n: nat): nat {
    if n == 0 then 0
    else Rejections(cfg, steps, key, from, n - 1) + if RejectsWithin(cfg, steps, n - 1, key, from) then 1 else 0
  }

  ghost function KeptOfTwo(l: Ledger, key: Addr, epoch: nat): nat {
    l.kept[Permit(key, epoch)] + l.kept[Permit(key, epoch + 1)]
  }

  ghost predicate RejectsOneOf(l: Ledger, step: Step, key: Addr, epoch: nat) {
    && step.Finish? && step.unauthorized && step.permit in l.held
    && (step.permit == Permit(key, epoch) || step.permit == Permit(key, epoch + 1))
  }

  lemma KeptGrows(cfg: Config, l: Ledger, step: Step, key: Addr, epoch: nat)
    ensures KeptOfTwo(Next(cfg, l, step), key, epoch) >=
            KeptOfTwo(l, key, epoch) + if RejectsOneOf(l, step, key, epoch) then 1 else 0
  {
  }

  lemma RejectsOneOfTwo(cfg: Config, steps: seq<Step>, n: nat, key: Addr, from: Instant, epoch: nat)
    requires OnlyTouches(cfg, steps, key, from, epoch) && RejectsWithin(cfg, steps, n, key, from)
    ensures RejectsOneOf(Play(cfg, steps[..n]), steps[n], key, epoch)
  {
  }

  lemma {:induction false} RejectionsAreKept(cfg: Config, steps: seq<Step>, key: Addr, from: Instant, epoch: nat,
                                             n: nat)
    requires OnlyTouches(cfg, steps, key, from, epoch) && n <= |steps|
    ensures Rejections(cfg, steps, key, from, n) <= KeptOfTwo(Play(cfg, steps[..n]), key, epoch)
  {
    if n > 0 {
      var before, last := steps[..n - 1], steps[n - 1];
      RejectionsAreKept(cfg, steps, key, from, epoch, n - 1);
      assert steps[..n] == before + [last];
      PlayOneMore(cfg, before, last);
      if RejectsWithin(cfg, steps, n - 1, key, from) {
        RejectsOneOfTwo(cfg, steps, n - 1, key, from, epoch);
      }
      KeptGrows(cfg, Play(cfg, before), last, key, epoch);
    }
  }

  /**
    On a run in which no release hits a foreign window, the requests of one key that begin within one
    window length, and all that share a window with one of them, end in at most 2 * limit 401s.
   */
  lemma RejectionsWithinAWindowLength(cfg: Config, steps: seq<Step>, key: Addr, from: Instant)
    requires cfg.window > 0 && BeginsInOrder(steps) && NeverSteals(cfg, steps)
    ensures Rejections(cfg, steps, key, from, |steps|) <= 2 * cfg.limit
  {
    var epoch := TwoWindows(cfg, steps, key, from);
    RejectionsAreKept(cfg, steps, key, from, epoch, |steps|);
    assert steps[..|steps|] == steps;
    HonestRun(cfg, steps, Permit(key, epoch));
    HonestRun(cfg, steps, Permit(key, epoch + 1));
  }
}
