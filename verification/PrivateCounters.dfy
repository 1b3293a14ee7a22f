/**
  What the keys of the limiter see of each other. All keys share one map, and a reservation for one key
  sweeps them all; yet each key should get the answers of a counter of its own. It does for exactly
  those schedules of clock readings in which no reservation falls back behind an earlier rise.
 */
module PrivateCounters {
  import opened Decimal
  import opened RateLimit

  predicate Mentions(e: Event, key: Addr) {
    e.key == key
  }

  function Own(events: seq<Event>, key: Addr): seq<Event> {
    if events == [] then []
    else
      var before := Own(events[..|events| - 1], key);
      if Mentions(events[|events| - 1], key) then before + [events[|events| - 1]] else before
  }

  /** A counter for one key that nobody sweeps: it looks at its own expiry on its own reservations. */
  function Counter(cfg: Config, own: seq<Event>): Option<Window> {
    if own == [] then None else Counted(cfg, Counter(cfg, own[..|own| - 1]), own[|own| - 1])
  }

  function Counted(cfg: Config, counter: Option<Window>, e: Event): Option<Window> {
    match e
    case Reserve(_, now) => Some(Take(cfg, CounterWindow(cfg, counter, now)))
    case Release(_) => if counter.Some? then Some(GiveBack(counter.value)) else None
  }

  function CounterWindow(cfg: Config, counter: Option<Window>, now: Instant): Window {
    if counter.Some? && Live(cfg, counter.value, now) then counter.value else Window(now, 0)
  }

  /** After these events, a reservation gets the answer of the key's private counter. */
  ghost predicate Agrees(cfg: Config, events: seq<Event>, key: Addr, now: Instant) {
    Grants(cfg, Run(cfg, events), key, now) <==>
    CounterWindow(cfg, Counter(cfg, Own(events, key)), now).requests < cfg.limit
  }

  /** Sharing is invisible: every reservation of the run gets the answer of its key's private counter. */
  ghost predicate Invisible(cfg: Config, events: seq<Event>) {
    forall j :: 0 <= j < |events| && events[j].Reserve? ==>
      Agrees(cfg, events[..j], events[j].key, events[j].now)
  }

  // ----- Schedules of clock readings

  predicate ReservesAt(events: seq<Event>, i: int, t: Instant) {
    0 <= i < |events| && events[i].Reserve? && events[i].now == t
  }

  /** The times of three reservations, in the order of the lock, rise and then fall back below the rise. */
  predicate Peak(events: seq<Event>, h: nat, i: nat, j: nat) {
    && h < i < j < |events| && events[h].Reserve? && events[i].Reserve? && events[j].Reserve?
    && events[h].now < events[i].now && events[j].now < events[i].now
  }

  ghost predicate NoPeak(events: seq<Event>) {
    forall h, i, j :: !Peak(events, h, i, j)
  }

  /** The same kinds of events at the same times, for any keys. */
  predicate SameSchedule(events: seq<Event>, other: seq<Event>) {
    && |events| == |other|
    && forall i :: 0 <= i < |events| ==>
         && (events[i].Reserve? <==> other[i].Reserve?)
         && (events[i].Reserve? ==> events[i].now == other[i].now)
  }

  lemma NoPeakBefore(events: seq<Event>, more: seq<Event>)
    requires NoPeak(events + more)
    ensures NoPeak(events)
  {
    forall h: nat, i: nat, j: nat ensures !Peak(events, h, i, j) {
      assert !Peak(events + more, h, i, j);
    }
  }

  lemma {:induction false} ClockIsLatest(events: seq<Event>, i: nat)
    requires i < |events| && events[i].Reserve?
    ensures events[i].now <= Clock(events)
  {
    if i < |events| - 1 {
      ClockIsLatest(events[..|events| - 1], i);
    }
  }

  /** Readings in the order of the lock have no peak. */
  lemma {:induction false} InOrderHasNoPeak(events: seq<Event>)
    requires InOrder(events)
    ensures NoPeak(events)
  {
    if events != [] {
      var last := |events| - 1;
      InOrderHasNoPeak(events[..last]);
      forall h: nat, i: nat, j: nat ensures !Peak(events, h, i, j) {
        if j < last {
          assert !Peak(events[..last], h, i, j);
        } else if Peak(events, h, i, j) {
          ClockIsLatest(events[..last], i);
          assert false;
        }
      }
    }
  }

  // ----- Without a peak, sharing is invisible

  /** A window that started at some reservation of the run, and a later reservation that found it expired. */
  ghost predicate SweptBy(cfg: Config, events: seq<Event>, started: Instant, h: nat, i: nat) {
    && h < i && ReservesAt(events, h, started)
    && i < |events| && events[i].Reserve? && Elapsed(events[i].now, started) >= cfg.window
  }

  ghost predicate EntryOrSwept(cfg: Config, events: seq<Event>, key: Addr, counter: Option<Window>) {
    var windows := Run(cfg, events);
    && (key in windows ==> counter == Some(windows[key]))
    && (counter.Some? ==> exists h :: ReservesAt(events, h, counter.value.started))
    && (key !in windows && counter.Some? ==> exists h, i :: SweptBy(cfg, events, counter.value.started, h, i))
  }

  /** A window swept before is still expired now, unless the clock readings have a peak. */
  lemma SweptStaysExpired(cfg: Config, events: seq<Event>, key: Addr, now: Instant, w: Window, h: nat, i: nat)
    requires NoPeak(events + [Reserve(key, now)]) && SweptBy(cfg, events, w.started, h, i)
    ensures !Live(cfg, w, now)
  {
    assert !Peak(events + [Reserve(key, now)], h, i, |events|);
  }

  lemma WindowsAgree(cfg: Config, events: seq<Event>, key: Addr, now: Instant, counter: Option<Window>)
    requires NoPeak(events + [Reserve(key, now)]) && EntryOrSwept(cfg, events, key, counter)
    ensures Current(cfg, Run(cfg, events), key, now) == CounterWindow(cfg, counter, now)
  {
    if key !in Run(cfg, events) && counter.Some? {
      var h, i :| SweptBy(cfg, events, counter.value.started, h, i);
      SweptStaysExpired(cfg, events, key, now, counter.value, h, i);
    }
  }

  lemma RunOneMore(cfg: Config, events: seq<Event>, e: Event)
    ensures Run(cfg, events + [e]) == After(cfg, Run(cfg, events), e)
  {
    assert (events + [e])[..|events|] == events;
  }

  lemma OwnOneMore(cfg: Config, events: seq<Event>, e: Event, key: Addr)
    ensures Own(events + [e], key) == Own(events, key) + if Mentions(e, key) then [e] else []
    ensures Counter(cfg, Own(events, key) + [e]) == Counted(cfg, Counter(cfg, Own(events, key)), e)
  {
    assert (events + [e])[..|events|] == events;
    assert (Own(events, key) + [e])[..|Own(events, key)|] == Own(events, key);
  }

  lemma OwnEventKeeps(cfg: Config, events: seq<Event>, e: Event, key: Addr)
    requires NoPeak(events + [e]) && Mentions(e, key)
    requires EntryOrSwept(cfg, events, key, Counter(cfg, Own(events, key)))
    ensures EntryOrSwept(cfg, events + [e], key, Counter(cfg, Own(events + [e], key)))
  {
    var counter := Counter(cfg, Own(events, key));
    RunOneMore(cfg, events, e);
    OwnOneMore(cfg, events, e, key);
    if counter.Some? {
      var h :| ReservesAt(events, h, counter.value.started);
      assert ReservesAt(events + [e], h, counter.value.started);
      if key !in Run(cfg, events) {
        var h', i :| SweptBy(cfg, events, counter.value.started, h', i);
        assert SweptBy(cfg, events + [e], counter.value.started, h', i);
      }
    }
    if e.Reserve? {
      WindowsAgree(cfg, events, key, e.now, counter);
      assert ReservesAt(events + [e], |events|, e.now);
    }
  }

  lemma OtherEventKeeps(cfg: Config, events: seq<Event>, e: Event, key: Addr)
    requires !Mentions(e, key) && EntryOrSwept(cfg, events, key, Counter(cfg, Own(events, key)))
    ensures EntryOrSwept(cfg, events + [e], key, Counter(cfg, Own(events + [e], key)))
  {
    var counter := Counter(cfg, Own(events, key));
    RunOneMore(cfg, events, e);
    OwnOneMore(cfg, events, e, key);
    if counter.Some? {
      var h :| ReservesAt(events, h, counter.value.started);
      assert ReservesAt(events + [e], h, counter.value.started);
      if key !in Run(cfg, events) {
        var h', i :| SweptBy(cfg, events, counter.value.started, h', i);
        assert SweptBy(cfg, events + [e], counter.value.started, h', i);
      } else if key !in Run(cfg, events + [e]) {
        assert SweptBy(cfg, events + [e], counter.value.started, h, |events|);
      }
    }
  }

  /**
    On every run without a peak a key's entry is its private counter, unless the counter's window was
    found expired by a later reservation and swept.
   */
  lemma {:induction false} EntryIsCounter(cfg: Config, events: seq<Event>, key: Addr)
    requires NoPeak(events)
    ensures EntryOrSwept(cfg, events, key, Counter(cfg, Own(events, key)))
  {
    if events != [] {
      var init, last := events[..|events| - 1], events[|events| - 1];
      assert events == init + [last];
      NoPeakBefore(init, [last]);
      EntryIsCounter(cfg, init, key);
      if Mentions(last, key) {
        OwnEventKeeps(cfg, init, last, key);
      } else {
        OtherEventKeeps(cfg, init, last, key);
      }
    }
  }

  /**
    On every interleaving over all keys whose times have no peak, a reservation gets the answer that a
    private counter gives to the key's own events alone.
   */
  lemma SweepRefinesPrivateCounters(cfg: Config, events: seq<Event>, key: Addr, now: Instant)
    requires NoPeak(events + [Reserve(key, now)])
    ensures Agrees(cfg, events, key, now)
  {
    NoPeakBefore(events, [Reserve(key, now)]);
    EntryIsCounter(cfg, events, key);
    WindowsAgree(cfg, events, key, now, Counter(cfg, Own(events, key)));
  }

  lemma InvisibleWithoutPeak(cfg: Config, events: seq<Event>, other: seq<Event>)
    requires NoPeak(events) && SameSchedule(events, other)
    ensures Invisible(cfg, other)
  {
    forall h: nat, i: nat, j: nat ensures !Peak(other, h, i, j) {
      assert !Peak(events, h, i, j);
    }
    forall j | 0 <= j < |other| && other[j].Reserve?
      ensures Agrees(cfg, other[..j], other[j].key, other[j].now)
    {
      assert other[..j] + [Reserve(other[j].key, other[j].now)] + other[j + 1..] == other;
      NoPeakBefore(other[..j] + [Reserve(other[j].key, other[j].now)], other[j + 1..]);
      SweepRefinesPrivateCounters(cfg, other[..j], other[j].key, other[j].now);
    }
  }

  // ----- With a peak, some keys see each other

  /** The events `h` and `j` for one key, and all the others for another. */
  function TwoKeys(events: seq<Event>, h: nat, j: nat): (other: seq<Event>)
    ensures SameSchedule(events, other)
    ensures forall i :: 0 <= i < |events| ==> other[i].key == if i == h || i == j then 1 else 2
  {
    seq(|events|, i requires 0 <= i < |events| => events[i].(key := if i == h || i == j then 1 else 2))
  }

  lemma FirstReservation(cfg: Config, windows: Windows, key: Addr, now: Instant)
    requires key !in windows && cfg.limit == 1
    ensures After(cfg, windows, Reserve(key, now))[key] == Window(now, 1)
  {
  }

  lemma EventForAnother(cfg: Config, windows: Windows, e: Event, key: Addr)
    requires !Mentions(e, key)
    ensures key in After(cfg, windows, e) ==>
              && key in windows && After(cfg, windows, e)[key] == windows[key]
              && (e.Reserve? ==> Live(cfg, windows[key], e.now))
  {
  }

  /** Up to event `n`, only `h` is about the first key. */
  ghost predicate OnlyFirst(other: seq<Event>, h: nat, n: nat) {
    n <= |other| && forall m :: 0 <= m < n ==> (Mentions(other[m], 1) <==> m == h)
  }

  lemma {:induction false} OwnIsFirst(other: seq<Event>, h: nat, n: nat)
    requires OnlyFirst(other, h, n)
    ensures Own(other[..n], 1) == if n <= h then [] else [other[h]]
  {
    if n > 0 {
      OwnIsFirst(other, h, n - 1);
      assert other[..n] == other[..n - 1] + [other[n - 1]];
      OwnOneMore(Config(0, 0), other[..n - 1], other[n - 1], 1);
    }
  }

  /** The window that `h` opens is there until `i` sweeps it, at the latest. */
  lemma {:induction false} PeakSweeps(cfg: Config, other: seq<Event>, h: nat, i: nat, n: nat)
    requires OnlyFirst(other, h, n) && h < i < |other| && other[h].Reserve? && other[i].Reserve?
    requires cfg.limit == 1 && Elapsed(other[i].now, other[h].now) >= cfg.window
    ensures 1 in Run(cfg, other[..n]) ==>
              h < n <= i && Run(cfg, other[..n])[1] == Window(other[h].now, 1)
  {
    if n > 0 {
      PeakSweeps(cfg, other, h, i, n - 1);
      var before, last := Run(cfg, other[..n - 1]), other[n - 1];
      assert other[..n] == other[..n - 1] + [last];
      RunOneMore(cfg, other[..n - 1], last);
      assert Mentions(last, 1) <==> n - 1 == h;
      if n - 1 == h {
        FirstReservation(cfg, before, 1, last.now);
      } else {
        EventForAnother(cfg, before, last, 1);
      }
    }
  }

  lemma PeakIsVisible(events: seq<Event>, h: nat, i: nat, j: nat)
    requires Peak(events, h, i, j)
    ensures !Invisible(Config(1, events[i].now - events[h].now), TwoKeys(events, h, j))
  {
    var cfg, other := Config(1, events[i].now - events[h].now), TwoKeys(events, h, j);
    OwnIsFirst(other, h, j);
    PeakSweeps(cfg, other, h, i, j);
    assert Own(other[..j], 1)[..0] == [];
    assert Counter(cfg, Own(other[..j], 1)) == Some(Window(other[h].now, 1));
    assert !Agrees(cfg, other[..j], other[j].key, other[j].now);
  }

  /**
    Which schedules of clock readings keep the sharing invisible, for every limit, every window length
    and every choice of keys: those without a peak.
   */
  lemma InvisibleIffNoPeak(events: seq<Event>)
    ensures (forall cfg, other :: SameSchedule(events, other) ==> Invisible(cfg, other)) <==> NoPeak(events)
  {
    if NoPeak(events) {
      forall cfg, other | SameSchedule(events, other) ensures Invisible(cfg, other) {
        InvisibleWithoutPeak(cfg, events, other);
      }
    } else {
      var h, i, j :| Peak(events, h, i, j);
      PeakIsVisible(events, h, i, j);
    }
  }

  /**
    The times are read before the lock is taken, so a peak can happen: a sweep made for one key then
    forgets another key's window, and that key gets a permit its own counter refuses.
   */
  lemma OutOfOrderClockForgets()
    ensures var cfg, events := Config(1, 10), [Reserve(1, 0)] + [Reserve(2, 10)];
            && Grants(cfg, Run(cfg, events), 1, 9)
            && CounterWindow(cfg, Counter(cfg, Own(events, 1)), 9).requests == cfg.limit
  {
    var cfg, one := Config(1, 10), [Reserve(1, 0)];
    OwnIsFirst(one + [Reserve(2, 10)], 0, 2);
    PeakSweeps(cfg, one + [Reserve(2, 10)], 0, 1, 2);
    assert (one + [Reserve(2, 10)])[..2] == one + [Reserve(2, 10)];
    assert one[..0] == [];
  }
}
