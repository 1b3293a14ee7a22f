/**
  The fixed-window rate limiter: one window per client address, and all expired windows swept on each
  reservation; its runs, and how many permits a stretch of time can see.
 */
module RateLimit {
  /** Addresses are only compared. */
  type Addr = nat

  /** Points on the monotonic clock and spans of it. */
  type Instant = nat

  datatype Window = Window(started: Instant, requests: nat)
  type Windows = map<Addr, Window>
  datatype Config = Config(limit: nat, window: nat)

  /** `duration_since` saturates at zero. */
  function Elapsed(now: Instant, started: Instant): nat {
    if now >= started then now - started else 0
  }

  predicate Live(cfg: Config, w: Window, now: Instant) {
    Elapsed(now, w.started) < cfg.window
  }

  function Sweep(cfg: Config, windows: Windows, now: Instant): Windows {
    map k | k in windows && Live(cfg, windows[k], now) :: windows[k]
  }

  /** The window a reservation counts against: the key's live window, or one that starts now. */
  function Current(cfg: Config, windows: Windows, key: Addr, now: Instant): Window {
    if key in windows && Live(cfg, windows[key], now) then windows[key] else Window(now, 0)
  }

  function Take(cfg: Config, w: Window): Window {
    if w.requests < cfg.limit then w.(requests := w.requests + 1) else w
  }

  function GiveBack(w: Window): Window {
    w.(requests := if w.requests == 0 then 0 else w.requests - 1)
  }

  predicate Grants(cfg: Config, windows: Windows, key: Addr, now: Instant) {
    Current(cfg, windows, key, now).requests < cfg.limit
  }

  function AfterReserve(cfg: Config, windows: Windows, key: Addr, now: Instant): Windows {
    Sweep(cfg, windows, now)[key := Take(cfg, Current(cfg, windows, key, now))]
  }

  function AfterRelease(windows: Windows, key: Addr): Windows {
    if key in windows then windows[key := GiveBack(windows[key])] else windows
  }

  class RateLimit {
    const cfg: Config
    var windows: Windows

    constructor (limit: nat, window: nat)
      ensures cfg == Config(limit, window) && windows == map[]
    {
      cfg := Config(limit, window);
      windows := map[];
    }

    method Reserve(key: Addr, now: Instant) returns (ok: bool)
      modifies this
      ensures ok == Grants(cfg, old(windows), key, now)
      ensures windows == AfterReserve(cfg, old(windows), key, now)
      ensures forall k :: k in windows ==> k == key || (k in old(windows) && Live(cfg, windows[k], now))
    {
      windows := map k | k in windows && Elapsed(now, windows[k].started) < cfg.window :: windows[k];
      if key !in windows {
        windows := windows[key := Window(now, 0)];
      }
      if windows[key].requests >= cfg.limit {
        return false;
      }
      windows := windows[key := windows[key].(requests := windows[key].requests + 1)];
      return true;
    }

    method Release(key: Addr)
      modifies this
      ensures windows == AfterRelease(old(windows), key)
    {
      if key in windows {
        var requests := windows[key].requests;
        windows := windows[key := windows[key].(requests := if requests > 0 then requests - 1 else 0)];
      }
    }
  }

  // ----- Runs of the shared map

  datatype Event = Reserve(key: Addr, now: Instant) | Release(key: Addr)

  function After(cfg: Config, windows: Windows, e: Event): Windows {
    match e
    case Reserve(key, now) => AfterReserve(cfg, windows, key, now)
    case Release(key) => AfterRelease(windows, key)
  }

  function Run(cfg: Config, events: seq<Event>): Windows {
    if events == [] then map[] else After(cfg, Run(cfg, events[..|events| - 1]), events[|events| - 1])
  }

  /** The latest time a reservation has read. */
  function Clock(events: seq<Event>): Instant {
    if events == [] then 0
    else
      var before := Clock(events[..|events| - 1]);
      match events[|events| - 1]
      case Reserve(_, now) => if now > before then now else before
      case Release(_) => before
  }

  /** Reservations read a non-decreasing clock, in the order in which they get the lock. */
  predicate InOrder(events: seq<Event>) {
    events == [] ||
    (var last := events[|events| - 1];
     && InOrder(events[..|events| - 1])
     && (last.Reserve? ==> Clock(events[..|events| - 1]) <= last.now))
  }

  // ----- How many permits a stretch of time can see

  predicate NoReleases(events: seq<Event>) {
    forall i :: 0 <= i < |events| ==> events[i].Reserve?
  }

  datatype Grant = Grant(time: Instant, started: Instant)

  /** The permits a key was granted, oldest first, each with the start of the window it came from. */
  function GrantLog(cfg: Config, events: seq<Event>, key: Addr): seq<Grant> {
    if events == [] then []
    else
      var init, last := events[..|events| - 1], events[|events| - 1];
      var log := GrantLog(cfg, init, key);
      if last.Reserve? && last.key == key && Grants(cfg, Run(cfg, init), key, last.now)
      then log + [Grant(last.now, Current(cfg, Run(cfg, init), key, last.now).started)]
      else log
  }

  ghost predicate WindowsApart(cfg: Config, log: seq<Grant>, now: Instant) {
    && (forall i :: 0 <= i < |log| ==> log[i].started <= log[i].time < log[i].started + cfg.window)
    && (forall i :: 0 <= i < |log| ==> log[i].time <= now)
    && (forall i, j :: 0 <= i < j < |log| ==>
          log[i].started == log[j].started || log[i].started + cfg.window <= log[j].started)
    && (forall i, j :: 0 <= i && j == i + cfg.limit < |log| ==> log[i].started != log[j].started)
  }

  /** The last `requests` grants came from the window that is open; all earlier ones from windows before it. */
  ghost predicate OpenWindow(cfg: Config, log: seq<Grant>, w: Window, now: Instant) {
    && w.started <= now && w.requests <= cfg.limit && w.requests <= |log|
    && (forall i :: |log| - w.requests <= i < |log| ==> log[i].started == w.started)
    && (forall i :: 0 <= i < |log| - w.requests ==> log[i].started + cfg.window <= w.started)
  }

  ghost predicate Expired(cfg: Config, log: seq<Grant>, now: Instant) {
    forall i :: 0 <= i < |log| ==> log[i].started + cfg.window <= now
  }

  ghost predicate Spread(cfg: Config, log: seq<Grant>, windows: Windows, key: Addr, now: Instant) {
    && WindowsApart(cfg, log, now)
    && if key in windows then OpenWindow(cfg, log, windows[key], now) else Expired(cfg, log, now)
  }

  lemma SpreadUntilLater(cfg: Config, log: seq<Grant>, windows: Windows, key: Addr, now: Instant, later: Instant)
    requires Spread(cfg, log, windows, key, now) && now <= later && cfg.window > 0
    ensures WindowsApart(cfg, log, later) && OpenWindow(cfg, log, Current(cfg, windows, key, later), later)
  {
  }

  lemma GrantKeepsApart(cfg: Config, log: seq<Grant>, w: Window, now: Instant)
    requires WindowsApart(cfg, log, now) && OpenWindow(cfg, log, w, now)
    requires now < w.started + cfg.window && w.requests < cfg.limit
    ensures var log' := log + [Grant(now, w.started)];
            WindowsApart(cfg, log', now) && OpenWindow(cfg, log', Take(cfg, w), now)
  {
  }

  lemma SweepKeepsSpread(cfg: Config, log: seq<Grant>, windows: Windows, key: Addr, now: Instant,
                         other: Addr, later: Instant)
    requires Spread(cfg, log, windows, key, now) && now <= later && other != key
    ensures Spread(cfg, log, AfterReserve(cfg, windows, other, later), key, later)
  {
  }

  lemma {:induction false} LogIsSpread(cfg: Config, events: seq<Event>, key: Addr)
    requires InOrder(events) && NoReleases(events) && cfg.window > 0
    ensures Spread(cfg, GrantLog(cfg, events, key), Run(cfg, events), key, Clock(events))
  {
    if events != [] {
      var init, last := events[..|events| - 1], events[|events| - 1];
      LogIsSpread(cfg, init, key);
      var log, windows := GrantLog(cfg, init, key), Run(cfg, init);
      assert last.Reserve?;
      if last.key != key {
        SweepKeepsSpread(cfg, log, windows, key, Clock(init), last.key, last.now);
      } else {
        SpreadUntilLater(cfg, log, windows, key, Clock(init), last.now);
        if Grants(cfg, windows, key, last.now) {
          GrantKeepsApart(cfg, log, Current(cfg, windows, key, last.now), last.now);
        }
      }
    }
  }

  /**
    The k-th permit of a key and the one 2 * limit later are more than a window apart, on every run
    without releases. So no stretch of time one window long sees more than 2 * limit permits.
   */
  lemma BurstBound(cfg: Config, events: seq<Event>, key: Addr, k: nat)
    requires InOrder(events) && NoReleases(events) && cfg.window > 0
    requires k + 2 * cfg.limit < |GrantLog(cfg, events, key)|
    ensures var log := GrantLog(cfg, events, key);
            log[k + 2 * cfg.limit].time > log[k].time + cfg.window
  {
    LogIsSpread(cfg, events, key);
    var log := GrantLog(cfg, events, key);
    var i, j := k + cfg.limit, k + 2 * cfg.limit;
    assert j == i + cfg.limit;
    assert log[k].started != log[i].started && log[i].started != log[j].started;
  }

  /** A run that can go on at time `now`, with window `w` open for the key and these permits granted. */
  ghost predicate At(cfg: Config, events: seq<Event>, key: Addr, now: Instant, w: Window, log: seq<Grant>) {
    && InOrder(events) && NoReleases(events) && Clock(events) <= now
    && Current(cfg, Run(cfg, events), key, now) == w && GrantLog(cfg, events, key) == log
  }

  lemma OneIsGranted(cfg: Config, init: seq<Event>, key: Addr, now: Instant, w: Window, log: seq<Grant>)
    requires cfg.window > 0 && At(cfg, init, key, now, w, log) && w.requests < cfg.limit
    ensures At(cfg, init + [Reserve(key, now)], key, now, Take(cfg, w), log + [Grant(now, w.started)])
  {
    assert (init + [Reserve(key, now)])[..|init|] == init;
  }

  /** Calls that fit into the open window are all granted. */
  lemma {:induction false} BurstIsGranted(cfg: Config, init: seq<Event>, key: Addr, now: Instant, w: Window,
                                          log: seq<Grant>, n: nat) returns (events: seq<Event>, more: seq<Grant>)
    requires cfg.window > 0 && At(cfg, init, key, now, w, log) && w.requests + n <= cfg.limit
    ensures At(cfg, events, key, now, w.(requests := w.requests + n), log + more)
    ensures |more| == n && forall i :: 0 <= i < n ==> more[i].time == now
  {
    if n == 0 {
      events, more := init, [];
      assert log + [] == log;
    } else {
      events, more := BurstIsGranted(cfg, init, key, now, w, log, n - 1);
      OneIsGranted(cfg, events, key, now, w.(requests := w.requests + n - 1), log + more);
      events := events + [Reserve(key, now)];
      assert log + more + [Grant(now, w.started)] == log + (more + [Grant(now, w.started)]);
      more := more + [Grant(now, w.started)];
    }
  }

  /** The bound is the best one: 2 * limit permits can fit into exactly one window length. */
  lemma BurstIsReached(cfg: Config, key: Addr) returns (events: seq<Event>)
    requires cfg.window > 0 && cfg.limit > 0
    ensures InOrder(events) && NoReleases(events)
    ensures var log := GrantLog(cfg, events, key);
            |log| == 2 * cfg.limit && log[2 * cfg.limit - 1].time == log[0].time + cfg.window
  {
    var first, log := BurstIsGranted(cfg, [], key, 0, Window(0, 0), [], cfg.limit);
    assert [] + log == log;
    var w := Current(cfg, Run(cfg, first), key, cfg.window);
    assert w == Window(cfg.window, 0) by {
      LogIsSpread(cfg, first, key);
    }
    var more;
    events, more := BurstIsGranted(cfg, first, key, cfg.window, w, log, cfg.limit);
  }
}
