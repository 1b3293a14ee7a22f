/**
  When the limiter around the handler does cap the 401s of a window: exactly as long as no request
  gives its permit back to a window that it did not take it from.
 */
module RejectionCap {
  import opened RateLimit
  import opened Permits

  /** Every open window counts exactly its running requests and its 401s. */
  ghost predicate Balanced(l: Ledger) {
    forall key :: key in l.windows ==> l.windows[key].requests == Spent(l, l.OpenPermit(key))
  }

  ghost predicate AlwaysBalanced(cfg: Config, steps: seq<Step>) {
    forall n :: 0 <= n <= |steps| ==> Balanced(Play(cfg, steps[..n]))
  }

  ghost predicate NeverSteals(cfg: Config, steps: seq<Step>) {
    forall n :: 0 <= n < |steps| ==> !Steals(Play(cfg, steps[..n]), steps[n])
  }

  lemma {:induction false} NothingStolen(cfg: Config, steps: seq<Step>)
    requires NeverSteals(cfg, steps)
    ensures Play(cfg, steps).stolen == multiset{}
  {
    if steps != [] {
      var last := |steps| - 1;
      NeverStealsBefore(cfg, steps, last);
      NothingStolen(cfg, steps[..last]);
      assert !Steals(Play(cfg, steps[..last]), steps[last]);
    }
  }

  lemma StealingUnbalances(cfg: Config, l: Ledger, step: Step)
    requires Balanced(l) && Steals(l, step)
    ensures !Balanced(Next(cfg, l, step))
  {
    var key := step.permit.key;
    var l' := Next(cfg, l, step);
    assert key in l'.windows && l'.OpenPermit(key) == l.OpenPermit(key);
    assert l'.windows[key].requests + 1 == l.windows[key].requests;
    assert Spent(l', l.OpenPermit(key)) == Spent(l, l.OpenPermit(key));
  }

  lemma BalancedWithoutStealing(cfg: Config, steps: seq<Step>)
    requires NeverSteals(cfg, steps)
    ensures Balanced(Play(cfg, steps))
  {
    NothingStolen(cfg, steps);
    var l := Play(cfg, steps);
    forall key | key in l.windows ensures l.windows[key].requests == Spent(l, l.OpenPermit(key)) {
      PlayAccounts(cfg, steps, l.OpenPermit(key));
    }
  }

  lemma NeverStealsBefore(cfg: Config, steps: seq<Step>, n: nat)
    requires NeverSteals(cfg, steps) && n <= |steps|
    ensures NeverSteals(cfg, steps[..n])
  {
    forall m | 0 <= m < n ensures !Steals(Play(cfg, steps[..n][..m]), steps[..n][m]) {
      assert steps[..n][..m] == steps[..m];
    }
  }

  lemma BalancedStepDoesNotSteal(cfg: Config, steps: seq<Step>, step: Step)
    requires Balanced(Play(cfg, steps)) && Balanced(Play(cfg, steps + [step]))
    ensures !Steals(Play(cfg, steps), step)
  {
    PlayOneMore(cfg, steps, step);
    if Steals(Play(cfg, steps), step) {
      StealingUnbalances(cfg, Play(cfg, steps), step);
    }
  }

  lemma AlwaysBalancedWithoutStealing(cfg: Config, steps: seq<Step>)
    requires NeverSteals(cfg, steps)
    ensures AlwaysBalanced(cfg, steps)
  {
    forall n | 0 <= n <= |steps| ensures Balanced(Play(cfg, steps[..n])) {
      NeverStealsBefore(cfg, steps, n);
      BalancedWithoutStealing(cfg, steps[..n]);
    }
  }

  lemma BalancedAtDoesNotSteal(cfg: Config, steps: seq<Step>, n: nat)
    requires AlwaysBalanced(cfg, steps) && n < |steps|
    ensures !Steals(Play(cfg, steps[..n]), steps[n])
  {
    assert steps[..n + 1] == steps[..n] + [steps[n]];
    BalancedStepDoesNotSteal(cfg, steps[..n], steps[n]);
  }

  /** The counts are exact throughout a run if and only if no step of it steals. */
  lemma BalancedIffNeverSteals(cfg: Config, steps: seq<Step>)
    ensures AlwaysBalanced(cfg, steps) <==> NeverSteals(cfg, steps)
  {
    if AlwaysBalanced(cfg, steps) {
      forall n | 0 <= n < |steps| ensures !Steals(Play(cfg, steps[..n]), steps[n]) {
        BalancedAtDoesNotSteal(cfg, steps, n);
      }
    }
    if NeverSteals(cfg, steps) {
      AlwaysBalancedWithoutStealing(cfg, steps);
    }
  }

  /** Without stealing: at most `limit` 401s a window, and a permit's own release never saturates. */
  lemma HonestRun(cfg: Config, steps: seq<Step>, p: Permit)
    requires NeverSteals(cfg, steps)
    ensures var l := Play(cfg, steps);
            && l.held[p] + l.kept[p] <= cfg.limit
            && (p in l.held && p.key in l.windows && p == l.OpenPermit(p.key) ==> l.windows[p.key].requests > 0)
  {
    NothingStolen(cfg, steps);
    PlayAccounts(cfg, steps, p);
  }

  // ----- The cap on 401s

  /** A continuation of a run in which no step steals. */
  ghost predicate HonestAfter(cfg: Config, steps: seq<Step>, more: seq<Step>) {
    forall m :: 0 <= m < |more| ==> !Steals(Play(cfg, steps + more[..m]), more[m])
  }

  /** However the run goes on without stealing, no window sees more 401s than the limit. */
  ghost predicate CapHolds(cfg: Config, steps: seq<Step>) {
    forall more, p :: HonestAfter(cfg, steps, more) ==> Play(cfg, steps + more).kept[p] <= cfg.limit
  }

  ghost predicate AlwaysCapped(cfg: Config, steps: seq<Step>) {
    forall n :: 0 <= n <= |steps| ==> CapHolds(cfg, steps[..n])
  }

  lemma HonestContinuation(cfg: Config, steps: seq<Step>, more: seq<Step>)
    requires NeverSteals(cfg, steps) && HonestAfter(cfg, steps, more)
    ensures NeverSteals(cfg, steps + more)
  {
    var all := steps + more;
    forall n | 0 <= n < |all| ensures !Steals(Play(cfg, all[..n]), all[n]) {
      if n < |steps| {
        assert all[..n] == steps[..n];
      } else {
        assert all[..n] == steps + more[..n - |steps|];
      }
    }
  }

  lemma CappedWithoutStealing(cfg: Config, steps: seq<Step>)
    requires NeverSteals(cfg, steps)
    ensures CapHolds(cfg, steps)
  {
    forall more, p | HonestAfter(cfg, steps, more) ensures Play(cfg, steps + more).kept[p] <= cfg.limit {
      HonestContinuation(cfg, steps, more);
      HonestRun(cfg, steps + more, p);
    }
  }

  /** From `l` to `m`, `k` more units of the key's open window went to requests that are still running. */
  ghost predicate Filled(l: Ledger, m: Ledger, key: Addr, k: nat)
    requires key in l.windows
  {
    && key in m.windows && m.windows[key] == Window(l.windows[key].started, l.windows[key].requests + k)
    && m.OpenPermit(key) == l.OpenPermit(key)
    && Spent(m, l.OpenPermit(key)) == Spent(l, l.OpenPermit(key)) + k
  }

  lemma FillOne(cfg: Config, l: Ledger, m: Ledger, key: Addr, k: nat)
    requires cfg.window > 0 && key in l.windows && l.windows[key].requests + k < cfg.limit
    requires Filled(l, m, key, k)
    ensures Filled(l, Next(cfg, m, Begin(key, l.windows[key].started)), key, k + 1)
  {
    var started := l.windows[key].started;
    assert Live(cfg, m.windows[key], started);
    assert Grants(cfg, m.windows, key, started);
    assert Next(cfg, m, Begin(key, started)).held == m.held + multiset{l.OpenPermit(key)};
  }

  /** A request at the start of the open window takes a unit of it, if one is left. */
  lemma {:induction false} FillWindow(cfg: Config, l: Ledger, key: Addr, k: nat)
    requires cfg.window > 0 && key in l.windows && l.windows[key].requests + k <= cfg.limit
    ensures Filled(l, Repeated(cfg, l, Begin(key, l.windows[key].started), k), key, k)
  {
    if k > 0 {
      FillWindow(cfg, l, key, k - 1);
      FillOne(cfg, l, Repeated(cfg, l, Begin(key, l.windows[key].started), k - 1), key, k - 1);
    }
  }

  /** From `l` to `m`, `k` holders of the permit ended in a 401. */
  ghost predicate Rejected(l: Ledger, m: Ledger, p: Permit, k: nat) {
    m.held[p] + k == l.held[p] && m.kept[p] == l.kept[p] + k
  }

  lemma RejectOne(cfg: Config, l: Ledger, m: Ledger, p: Permit, k: nat)
    requires k < l.held[p] && Rejected(l, m, p, k)
    ensures Rejected(l, Next(cfg, m, Finish(p, true)), p, k + 1)
  {
    assert p in m.held;
  }

  lemma {:induction false} RejectHeld(cfg: Config, l: Ledger, p: Permit, k: nat)
    requires k <= l.held[p]
    ensures Rejected(l, Repeated(cfg, l, Finish(p, true), k), p, k)
  {
    if k > 0 {
      RejectHeld(cfg, l, p, k - 1);
      RejectOne(cfg, l, Repeated(cfg, l, Finish(p, true), k - 1), p, k - 1);
    }
  }

  lemma CopiesAreHonest(cfg: Config, steps: seq<Step>, a: Step, i: nat, b: Step, j: nat)
    requires (a.Begin? || a.unauthorized) && (b.Begin? || b.unauthorized)
    ensures HonestAfter(cfg, steps, Copies(a, i) + Copies(b, j))
  {
  }

  lemma RejectAll(cfg: Config, steps: seq<Step>, p: Permit)
    ensures var l := Play(cfg, steps);
            Play(cfg, steps + Copies(Finish(p, true), l.held[p])).kept[p] == Spent(l, p)
  {
    var l := Play(cfg, steps);
    PlayCopies(cfg, steps, Finish(p, true), l.held[p]);
    RejectHeld(cfg, l, p, l.held[p]);
  }

  lemma FillUp(cfg: Config, steps: seq<Step>, key: Addr, k: nat)
    requires cfg.window > 0 && key in Play(cfg, steps).windows
    requires Play(cfg, steps).windows[key].requests + k <= cfg.limit
    ensures var l := Play(cfg, steps);
            Filled(l, Play(cfg, steps + Copies(Begin(key, l.windows[key].started), k)), key, k)
  {
    var l := Play(cfg, steps);
    PlayCopies(cfg, steps, Begin(key, l.windows[key].started), k);
    FillWindow(cfg, l, key, k);
  }

  lemma PastTheCap(cfg: Config, steps: seq<Step>, more: seq<Step>, p: Permit)
    requires HonestAfter(cfg, steps, more) && Play(cfg, steps + more).kept[p] > cfg.limit
    ensures !CapHolds(cfg, steps)
  {
  }

  lemma RejectPastTheCap(cfg: Config, steps: seq<Step>, key: Addr, now: Instant, k: nat, p: Permit)
    requires Spent(Play(cfg, steps + Copies(Begin(key, now), k)), p) > cfg.limit
    ensures !CapHolds(cfg, steps)
  {
    var fill := Copies(Begin(key, now), k);
    var held := Play(cfg, steps + fill).held[p];
    RejectAll(cfg, steps + fill, p);
    CopiesAreHonest(cfg, steps, Begin(key, now), k, Finish(p, true), held);
    var more := fill + Copies(Finish(p, true), held);
    assert steps + more == steps + fill + Copies(Finish(p, true), held);
    PastTheCap(cfg, steps, more, p);
  }

  /** A window with more permits out than it counts can see a 401 too many. */
  lemma OverfullBreaksTheCap(cfg: Config, steps: seq<Step>, key: Addr)
    requires cfg.window > 0 && key in Play(cfg, steps).windows
    requires var l := Play(cfg, steps);
             l.windows[key].requests <= cfg.limit && l.windows[key].requests < Spent(l, l.OpenPermit(key))
    ensures !CapHolds(cfg, steps)
  {
    var l := Play(cfg, steps);
    var k: nat := cfg.limit - l.windows[key].requests;
    FillUp(cfg, steps, key, k);
    RejectPastTheCap(cfg, steps, key, l.windows[key].started, k, l.OpenPermit(key));
  }

  lemma StealingOverfills(cfg: Config, steps: seq<Step>, step: Step)
    requires Steals(Play(cfg, steps), step)
    ensures var l, key := Play(cfg, steps + [step]), step.permit.key;
            && key in l.windows && l.windows[key].requests <= cfg.limit
            && l.windows[key].requests < Spent(l, l.OpenPermit(key))
  {
    var l := Play(cfg, steps);
    PlayAccounts(cfg, steps, l.OpenPermit(step.permit.key));
    PlayOneMore(cfg, steps, step);
  }

  /** The cap on 401s: a run can be continued past it if and only if some step of the run has stolen. */
  lemma CappedIffNeverSteals(cfg: Config, steps: seq<Step>)
    requires cfg.window > 0
    ensures AlwaysCapped(cfg, steps) <==> NeverSteals(cfg, steps)
  {
    if AlwaysCapped(cfg, steps) {
      forall n | 0 <= n < |steps| ensures !Steals(Play(cfg, steps[..n]), steps[n]) {
        if Steals(Play(cfg, steps[..n]), steps[n]) {
          assert steps[..n + 1] == steps[..n] + [steps[n]];
          StealingOverfills(cfg, steps[..n], steps[n]);
          OverfullBreaksTheCap(cfg, steps[..n + 1], steps[n].permit.key);
        }
      }
    }
    if NeverSteals(cfg, steps) {
      forall n | 0 <= n <= |steps| ensures CapHolds(cfg, steps[..n]) {
        NeverStealsBefore(cfg, steps, n);
        CappedWithoutStealing(cfg, steps[..n]);
      }
    }
  }

  /**
    A request that outlives its window steals on return: with a limit of one, two requests of the
    second window end in a 401.
   */
  lemma SlowRequestBreaksTheCap()
    ensures var slow, second := Permit(1, 1), Permit(1, 2);
            var steps := [Begin(1, 0)] + [Begin(1, 10)] + [Finish(slow, false)] + [Begin(1, 11)] +
                         [Finish(second, true)] + [Finish(second, true)];
            Play(Config(1, 10), steps).kept[second] == 2
  {
    var cfg, slow, second := Config(1, 10), Permit(1, 1), Permit(1, 2);
    var one := [Begin(1, 0)];
    var two := one + [Begin(1, 10)];
    var three := two + [Finish(slow, false)];
    var four := three + [Begin(1, 11)];
    var five := four + [Finish(second, true)];
    PlayOneMore(cfg, [], Begin(1, 0));
    assert [] + one == one;
    PlayOneMore(cfg, one, Begin(1, 10));
    PlayOneMore(cfg, two, Finish(slow, false));
    PlayOneMore(cfg, three, Begin(1, 11));
    PlayOneMore(cfg, four, Finish(second, true));
    PlayOneMore(cfg, five, Finish(second, true));
    SlowRequestSteps(cfg, slow, second);
  }

  lemma ReserveAlone(cfg: Config, key: Addr, w: Window, now: Instant)
    ensures AfterReserve(cfg, map[key := w], key, now) == map[key := Take(cfg, Current(cfg, map[key := w], key, now))]
  {
  }

  lemma SlowRequestSteps(cfg: Config, slow: Permit, second: Permit)
    requires cfg == Config(1, 10) && slow == Permit(1, 1) && second == Permit(1, 2)
    ensures var l2 := Next(cfg, Next(cfg, EMPTY, Begin(1, 0)), Begin(1, 10));
            var l4 := Next(cfg, Next(cfg, l2, Finish(slow, false)), Begin(1, 11));
            Next(cfg, Next(cfg, l4, Finish(second, true)), Finish(second, true)).kept[second] == 2
  {
    var l1 := Next(cfg, EMPTY, Begin(1, 0));
    assert l1 == Ledger(map[1 := Window(0, 1)], map[1 := 1], multiset{slow}, multiset{}, multiset{});
    var l2 := Next(cfg, l1, Begin(1, 10));
    ReserveAlone(cfg, 1, Window(0, 1), 10);
    assert l2 == Ledger(map[1 := Window(10, 1)], map[1 := 2], multiset{slow, second}, multiset{}, multiset{});
    var l3 := Next(cfg, l2, Finish(slow, false));
    assert l3.windows == map[1 := Window(10, 0)] && l3.epochs == map[1 := 2];
    assert l3.held == multiset{second} && l3.kept == multiset{};
    ReserveAlone(cfg, 1, Window(10, 0), 11);
    SecondWindowKeepsTwo(cfg, l3, second);
  }

  lemma SecondWindowKeepsTwo(cfg: Config, l3: Ledger, second: Permit)
    requires cfg == Config(1, 10) && second == Permit(1, 2)
    requires l3.windows == map[1 := Window(10, 0)] && l3.epochs == map[1 := 2]
    requires l3.held == multiset{second} && l3.kept == multiset{}
    ensures var l4 := Next(cfg, l3, Begin(1, 11));
            Next(cfg, Next(cfg, l4, Finish(second, true)), Finish(second, true)).kept[second] == 2
  {
    var l4 := Next(cfg, l3, Begin(1, 11));
    assert l4.held == multiset{second, second};
    var l5 := Next(cfg, l4, Finish(second, true));
    assert l5.held == multiset{second} && l5.kept == multiset{second};
  }
}
