/**
  Whether the limit also bounds the requests of one address that run at a time: exactly as long as no
  window opens while a permit of its address is still held.
 */
module Concurrency {
  import opened RateLimit
  import opened Permits
  import opened RejectionCap

  /** The running requests of an address, over its windows up to the given one. */
  ghost function HeldUpTo(l: Ledger, key: Addr, epoch: nat): nat {
    l.held[Permit(key, epoch)] + if epoch == 0 then 0 else HeldUpTo(l, key, epoch - 1)
  }

  ghost function InFlight(l: Ledger, key: Addr): nat {
    HeldUpTo(l, key, l.Epoch(key))
  }

  /** A window opens while an earlier request of its address is still running. */
  ghost predicate Overlaps(cfg: Config, l: Ledger, step: Step) {
    step.Begin? && Opens(cfg, l, step.key, step.now) && InFlight(l, step.key) > 0
  }

  lemma {:induction false} HeldUpToSame(l: Ledger, m: Ledger, key: Addr, epoch: nat)
    requires forall e: nat :: e <= epoch ==> l.held[Permit(key, e)] == m.held[Permit(key, e)]
    ensures HeldUpTo(l, key, epoch) == HeldUpTo(m, key, epoch)
  {
    if epoch > 0 {
      HeldUpToSame(l, m, key, epoch - 1);
    }
  }

  lemma {:induction false} HeldUpToIsZero(l: Ledger, key: Addr, epoch: nat)
    ensures HeldUpTo(l, key, epoch) == 0 <==> forall e: nat :: e <= epoch ==> l.held[Permit(key, e)] == 0
  {
    if epoch > 0 {
      HeldUpToIsZero(l, key, epoch - 1);
    }
  }

  // ----- A burst that opens a window

  /** From `l` to `m`, a window opened at `now` and gave out `taken` permits; the older permits are as before. */
  ghost predicate Opened(l: Ledger, m: Ledger, key: Addr, now: Instant, taken: nat) {
    && key in m.windows && m.windows[key] == Window(now, taken)
    && m.Epoch(key) == l.Epoch(key) + 1
    && m.held[Permit(key, l.Epoch(key) + 1)] == taken
    && forall e: nat :: e <= l.Epoch(key) ==> m.held[Permit(key, e)] == l.held[Permit(key, e)]
  }

  function AtMost(k: nat, limit: nat): nat {
    if k < limit then k else limit
  }

  lemma FirstOpens(cfg: Config, l: Ledger, key: Addr, now: Instant)
    requires Opens(cfg, l, key, now) && l.held[Permit(key, l.Epoch(key) + 1)] == 0
    ensures Opened(l, Next(cfg, l, Begin(key, now)), key, now, AtMost(1, cfg.limit))
  {
  }

  lemma OneMoreOfBurst(cfg: Config, l: Ledger, m: Ledger, key: Addr, now: Instant, k: nat)
    requires cfg.window > 0 && Opened(l, m, key, now, AtMost(k, cfg.limit))
    ensures Opened(l, Next(cfg, m, Begin(key, now)), key, now, AtMost(k + 1, cfg.limit))
  {
    assert Live(cfg, m.windows[key], now);
  }

  /** The burst fills the new window up to the limit. */
  lemma {:induction false} BurstCounts(cfg: Config, l: Ledger, key: Addr, now: Instant, k: nat)
    requires cfg.window > 0 && Opens(cfg, l, key, now) && l.held[Permit(key, l.Epoch(key) + 1)] == 0 && k > 0
    ensures Opened(l, Repeated(cfg, l, Begin(key, now), k), key, now, AtMost(k, cfg.limit))
  {
    if k == 1 {
      assert Repeated(cfg, l, Begin(key, now), 0) == l;
      FirstOpens(cfg, l, key, now);
    } else {
      BurstCounts(cfg, l, key, now, k - 1);
      OneMoreOfBurst(cfg, l, Repeated(cfg, l, Begin(key, now), k - 1), key, now, k - 1);
    }
  }

  ghost predicate BurstsBounded(cfg: Config, l: Ledger, key: Addr, now: Instant) {
    forall k: nat :: InFlight(Repeated(cfg, l, Begin(key, now), k), key) <= cfg.limit
  }

  /** When a window opens, the limit bounds every burst if and only if the address was idle. */
  lemma BurstsBoundedIffIdle(cfg: Config, l: Ledger, key: Addr, now: Instant)
    requires cfg.window > 0 && Opens(cfg, l, key, now) && l.held[Permit(key, l.Epoch(key) + 1)] == 0
    ensures BurstsBounded(cfg, l, key, now) <==> InFlight(l, key) == 0
  {
    forall k: nat | k > 0
      ensures InFlight(Repeated(cfg, l, Begin(key, now), k), key) ==
              InFlight(l, key) + AtMost(k, cfg.limit)
    {
      BurstCounts(cfg, l, key, now, k);
      HeldUpToSame(l, Repeated(cfg, l, Begin(key, now), k), key, l.Epoch(key));
    }
    assert InFlight(Repeated(cfg, l, Begin(key, now), 0), key) == InFlight(l, key);
    assert InFlight(Repeated(cfg, l, Begin(key, now), cfg.limit + 1), key) == InFlight(l, key) + cfg.limit;
  }

  // ----- Whole runs

  /** All running requests of the address belong to its latest window, which counts them all. */
  ghost predicate Contained(cfg: Config, l: Ledger, key: Addr) {
    forall e: nat ::
      && PermitAccounts(cfg, l, Permit(key, e))
      && l.stolen[Permit(key, e)] == 0
      && (e != l.Epoch(key) ==> l.held[Permit(key, e)] == 0)
  }

  lemma ContainedIsBounded(cfg: Config, l: Ledger, key: Addr)
    requires Contained(cfg, l, key)
    ensures InFlight(l, key) <= cfg.limit
  {
    assert PermitAccounts(cfg, l, l.OpenPermit(key));
    if l.Epoch(key) > 0 {
      HeldUpToIsZero(l, key, l.Epoch(key) - 1);
    }
  }

  lemma ContainedNext(cfg: Config, l: Ledger, step: Step, key: Addr)
    requires Contained(cfg, l, key) && !Overlaps(cfg, l, step)
    ensures Contained(cfg, Next(cfg, l, step), key)
    ensures step.Finish? && step.permit.key == key ==> !Steals(l, step)
  {
    var l' := Next(cfg, l, step);
    HeldUpToIsZero(l, key, l.Epoch(key));
    forall e: nat
      ensures PermitAccounts(cfg, l', Permit(key, e)) && l'.stolen[Permit(key, e)] == 0
      ensures e != l'.Epoch(key) ==> l'.held[Permit(key, e)] == 0
    {
      assert PermitAccounts(cfg, l, Permit(key, e));
      match step
      case Begin(k, now) => BeginAccounts(cfg, l, k, now, Permit(key, e));
      case Finish(permit, unauthorized) => FinishAccounts(cfg, l, permit, unauthorized, Permit(key, e));
    }
  }

  lemma BeginLeavesOpen(cfg: Config, l: Ledger, key: Addr, now: Instant)
    requires cfg.window > 0
    ensures !Opens(cfg, Next(cfg, l, Begin(key, now)), key, now)
  {
  }

  lemma {:induction false} ContainedBurst(cfg: Config, l: Ledger, key: Addr, now: Instant, k: nat)
    requires cfg.window > 0 && Contained(cfg, l, key) && !Overlaps(cfg, l, Begin(key, now))
    ensures var l' := Repeated(cfg, l, Begin(key, now), k);
            Contained(cfg, l', key) && !Overlaps(cfg, l', Begin(key, now))
  {
    if k > 0 {
      ContainedBurst(cfg, l, key, now, k - 1);
      ContainedNext(cfg, Repeated(cfg, l, Begin(key, now), k - 1), Begin(key, now), key);
      BeginLeavesOpen(cfg, Repeated(cfg, l, Begin(key, now), k - 1), key, now);
    }
  }

  ghost predicate NeverOverlaps(cfg: Config, steps: seq<Step>) {
    forall n :: 0 <= n < |steps| ==> !Overlaps(cfg, Play(cfg, steps[..n]), steps[n])
  }

  lemma NeverOverlapsBefore(cfg: Config, steps: seq<Step>, n: nat)
    requires NeverOverlaps(cfg, steps) && n <= |steps|
    ensures NeverOverlaps(cfg, steps[..n])
  {
    forall m | 0 <= m < n ensures !Overlaps(cfg, Play(cfg, steps[..n][..m]), steps[..n][m]) {
      assert steps[..n][..m] == steps[..m];
    }
  }

  lemma {:induction false} ContainedWithoutOverlap(cfg: Config, steps: seq<Step>, key: Addr)
    requires NeverOverlaps(cfg, steps)
    ensures Contained(cfg, Play(cfg, steps), key)
  {
    if steps != [] {
      var last := |steps| - 1;
      NeverOverlapsBefore(cfg, steps, last);
      ContainedWithoutOverlap(cfg, steps[..last], key);
      ContainedNext(cfg, Play(cfg, steps[..last]), steps[last], key);
    }
  }

  /**
    If no window opens while a permit of its address is held, the limit bounds the running requests of
    every address, and no step steals, so that the limit caps the 401s of every window as well.
   */
  lemma ConcurrencyWithoutOverlap(cfg: Config, steps: seq<Step>, key: Addr)
    requires NeverOverlaps(cfg, steps)
    ensures InFlight(Play(cfg, steps), key) <= cfg.limit
    ensures NeverSteals(cfg, steps)
  {
    ContainedWithoutOverlap(cfg, steps, key);
    ContainedIsBounded(cfg, Play(cfg, steps), key);
    forall n | 0 <= n < |steps| && steps[n].Finish? ensures !Steals(Play(cfg, steps[..n]), steps[n]) {
      NeverOverlapsBefore(cfg, steps, n);
      ContainedWithoutOverlap(cfg, steps[..n], steps[n].permit.key);
      ContainedNext(cfg, Play(cfg, steps[..n]), steps[n], steps[n].permit.key);
    }
  }

  /** At each of its requests, any number of further ones at the same time would be within the limit. */
  ghost predicate AlwaysBounded(cfg: Config, steps: seq<Step>) {
    forall n :: 0 <= n < |steps| && steps[n].Begin? ==>
      BurstsBounded(cfg, Play(cfg, steps[..n]), steps[n].key, steps[n].now)
  }

  lemma BoundedStepDoesNotOverlap(cfg: Config, steps: seq<Step>, step: Step)
    requires cfg.window > 0 && step.Begin? && BurstsBounded(cfg, Play(cfg, steps), step.key, step.now)
    ensures !Overlaps(cfg, Play(cfg, steps), step)
  {
    var l := Play(cfg, steps);
    if Opens(cfg, l, step.key, step.now) {
      PlayAccounts(cfg, steps, Permit(step.key, l.Epoch(step.key) + 1));
      BurstsBoundedIffIdle(cfg, l, step.key, step.now);
    }
  }

  lemma BurstsBoundedWithoutOverlap(cfg: Config, steps: seq<Step>, key: Addr, now: Instant)
    requires cfg.window > 0 && NeverOverlaps(cfg, steps) && !Overlaps(cfg, Play(cfg, steps), Begin(key, now))
    ensures BurstsBounded(cfg, Play(cfg, steps), key, now)
  {
    var l := Play(cfg, steps);
    ContainedWithoutOverlap(cfg, steps, key);
    forall k: nat ensures InFlight(Repeated(cfg, l, Begin(key, now), k), key) <= cfg.limit {
      ContainedBurst(cfg, l, key, now, k);
      ContainedIsBounded(cfg, Repeated(cfg, l, Begin(key, now), k), key);
    }
  }

  /** The limit bounds concurrency along a run if and only if no window of the run opens over a held permit. */
  lemma BoundedIffNeverOverlaps(cfg: Config, steps: seq<Step>)
    requires cfg.window > 0
    ensures AlwaysBounded(cfg, steps) <==> NeverOverlaps(cfg, steps)
  {
    if AlwaysBounded(cfg, steps) {
      forall n | 0 <= n < |steps| && steps[n].Begin? ensures !Overlaps(cfg, Play(cfg, steps[..n]), steps[n]) {
        BoundedStepDoesNotOverlap(cfg, steps[..n], steps[n]);
      }
    }
    if NeverOverlaps(cfg, steps) {
      forall n | 0 <= n < |steps| && steps[n].Begin?
        ensures BurstsBounded(cfg, Play(cfg, steps[..n]), steps[n].key, steps[n].now)
      {
        NeverOverlapsBefore(cfg, steps, n);
        BurstsBoundedWithoutOverlap(cfg, steps[..n], steps[n].key, steps[n].now);
      }
    }
  }

  /**
    Otherwise it does not: with a limit of one, two requests of different windows run at a time, and
    once the older one has given its permit back, so do two of the newer window.
   */
  lemma LimitIsNotAConcurrencyBound()
    ensures var slow, second := Permit(1, 1), Permit(1, 2);
            var steps := [Begin(1, 0)] + [Begin(1, 10)];
            && Play(Config(1, 10), steps).held == multiset{slow, second}
            && Play(Config(1, 10), steps + [Finish(slow, false)] + [Begin(1, 11)]).held == multiset{second, second}
  {
    var cfg, slow := Config(1, 10), Permit(1, 1);
    var one := [Begin(1, 0)];
    var two := one + [Begin(1, 10)];
    PlayOneMore(cfg, [], Begin(1, 0));
    assert [] + one == one;
    PlayOneMore(cfg, one, Begin(1, 10));
    PlayOneMore(cfg, two, Finish(slow, false));
    PlayOneMore(cfg, two + [Finish(slow, false)], Begin(1, 11));
    TwoWindowsHeld(cfg);
  }

  lemma TwoWindowsHeld(cfg: Config)
    requires cfg == Config(1, 10)
    ensures var slow, second := Permit(1, 1), Permit(1, 2);
            var l2 := Next(cfg, Next(cfg, EMPTY, Begin(1, 0)), Begin(1, 10));
            && l2.held == multiset{slow, second}
            && Next(cfg, Next(cfg, l2, Finish(slow, false)), Begin(1, 11)).held == multiset{second, second}
  {
    var slow, second := Permit(1, 1), Permit(1, 2);
    var l1 := Next(cfg, EMPTY, Begin(1, 0));
    assert l1 == Ledger(map[1 := Window(0, 1)], map[1 := 1], multiset{slow}, multiset{}, multiset{});
    var l2 := Next(cfg, l1, Begin(1, 10));
    ReserveAlone(cfg, 1, Window(0, 1), 10);
    assert l2 == Ledger(map[1 := Window(10, 1)], map[1 := 2], multiset{slow, second}, multiset{}, multiset{});
    var l3 := Next(cfg, l2, Finish(slow, false));
    assert l3.windows == map[1 := Window(10, 0)] && l3.held == multiset{second};
  }
}
