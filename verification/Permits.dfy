/**
  The limiter around the handler of the API: a request with the credential holds a permit of its
  address, and every response but a 401 gives the permit back, by its address alone.
 */
module Permits {
  import opened RateLimit

  /** A permit belongs to one window of one key; a key's windows are numbered in the order they open. */
  datatype Permit = Permit(key: Addr, epoch: nat)

  /**
    `held` are the permits of requests that are still running, `kept` those of requests that ended in
    a 401, and `stolen` counts, for each window, the units that permits of earlier windows took out of it.
   */
  datatype Ledger = Ledger(
    windows: Windows, epochs: map<Addr, nat>,
    held: multiset<Permit>, kept: multiset<Permit>, stolen: multiset<Permit>) {

    function Epoch(key: Addr): nat {
      if key in epochs then epochs[key] else 0
    }

    function OpenPermit(key: Addr): Permit {
      Permit(key, Epoch(key))
    }
  }

  const EMPTY := Ledger(map[], map[], multiset{}, multiset{}, multiset{})

  datatype Step = Begin(key: Addr, now: Instant) | Finish(permit: Permit, unauthorized: bool)

  /** A finished request gives back a unit of a window that its permit did not come from. */
  predicate Steals(l: Ledger, step: Step) {
    && step.Finish? && step.permit in l.held && !step.unauthorized
    && step.permit.key in l.windows
    && l.windows[step.permit.key].requests > 0
    && step.permit != l.OpenPermit(step.permit.key)
  }

  /** A request at this time finds no live window of its key. */
  predicate Opens(cfg: Config, l: Ledger, key: Addr, now: Instant) {
    !(key in l.windows && Live(cfg, l.windows[key], now))
  }

  /** Only a running request can finish. */
  function Next(cfg: Config, l: Ledger, step: Step): Ledger {
    match step
    case Begin(key, now) =>
      var epoch := if Opens(cfg, l, key, now) then l.Epoch(key) + 1 else l.Epoch(key);
      l.(windows := AfterReserve(cfg, l.windows, key, now),
         epochs := l.epochs[key := epoch],
         held := if Grants(cfg, l.windows, key, now) then l.held + multiset{Permit(key, epoch)} else l.held)
    case Finish(permit, unauthorized) =>
      if permit !in l.held then l
      else if unauthorized then l.(held := l.held - multiset{permit}, kept := l.kept + multiset{permit})
      else l.(windows := AfterRelease(l.windows, permit.key),
              held := l.held - multiset{permit},
              stolen := if Steals(l, step) then l.stolen + multiset{l.OpenPermit(permit.key)} else l.stolen)
  }

  datatype Verdict = Unlimited | Admitted | TooManyRequests

  /** The middleware for one credential header; its ledger is kept for the proofs only. */
  class UnauthorizedLimiter {
    const limiter: RateLimit
    ghost var ledger: Ledger

    ghost predicate Valid()
      reads this, limiter
    {
      ledger.windows == limiter.windows
    }

    constructor (limit: nat, window: nat)
      ensures Valid() && fresh(limiter) && limiter.cfg == Config(limit, window) && ledger == EMPTY
    {
      limiter := new RateLimit(limit, window);
      ledger := EMPTY;
    }

    /** Before the handler: requests without the credential are neither counted nor blocked. */
    method Enter(key: Addr, credential: bool, now: Instant) returns (verdict: Verdict, ghost permit: Permit)
      requires Valid()
      modifies this, limiter
      ensures Valid()
      ensures !credential ==> verdict == Unlimited && ledger == old(ledger)
      ensures credential ==>
                && ledger == Next(limiter.cfg, old(ledger), Begin(key, now))
                && verdict == if Grants(limiter.cfg, old(limiter.windows), key, now) then Admitted else TooManyRequests
      ensures verdict == Admitted ==> permit == ledger.OpenPermit(key) && permit in ledger.held
    {
      permit := Permit(key, 0);
      if !credential {
        return Unlimited, permit;
      }
      var ok := limiter.Reserve(key, now);
      ledger := Next(limiter.cfg, ledger, Begin(key, now));
      permit := ledger.OpenPermit(key);
      verdict := if ok then Admitted else TooManyRequests;
    }

    /** After the handler: every response but a 401 gives the permit back, by its address alone. */
    method Leave(key: Addr, ghost permit: Permit, unauthorized: bool)
      requires Valid() && permit in ledger.held && permit.key == key
      modifies this, limiter
      ensures Valid()
      ensures ledger == Next(limiter.cfg, old(ledger), Finish(permit, unauthorized))
    {
      ledger := Next(limiter.cfg, ledger, Finish(permit, unauthorized));
      if !unauthorized {
        limiter.Release(key);
      }
    }
  }

  function Play(cfg: Config, steps: seq<Step>): Ledger {
    if steps == [] then EMPTY
    else Next(cfg, Play(cfg, steps[..|steps| - 1]), steps[|steps| - 1])
  }

  /** Permits outstanding or used up in a window. */
  function Spent(l: Ledger, p: Permit): nat {
    l.held[p] + l.kept[p]
  }

  ghost predicate PermitAccounts(cfg: Config, l: Ledger, p: Permit) {
    && (p.epoch > l.Epoch(p.key) ==> l.held[p] == l.kept[p] == l.stolen[p] == 0)
    && Spent(l, p) <= cfg.limit + l.stolen[p]
    && (p.key in l.windows && p == l.OpenPermit(p.key) ==>
          && l.windows[p.key].requests <= cfg.limit
          && l.windows[p.key].requests <= Spent(l, p) <= l.windows[p.key].requests + l.stolen[p])
  }

  lemma BeginAccounts(cfg: Config, l: Ledger, key: Addr, now: Instant, p: Permit)
    requires PermitAccounts(cfg, l, p)
    ensures PermitAccounts(cfg, Next(cfg, l, Begin(key, now)), p)
  {
  }

  lemma FinishAccounts(cfg: Config, l: Ledger, permit: Permit, unauthorized: bool, p: Permit)
    requires PermitAccounts(cfg, l, p)
    ensures PermitAccounts(cfg, Next(cfg, l, Finish(permit, unauthorized)), p)
  {
  }

  /** On every run, whatever the clock does, a window's units are held, kept, given back or stolen. */
  lemma {:induction false} PlayAccounts(cfg: Config, steps: seq<Step>, p: Permit)
    ensures PermitAccounts(cfg, Play(cfg, steps), p)
  {
    if steps != [] {
      var init := steps[..|steps| - 1];
      PlayAccounts(cfg, init, p);
      match steps[|steps| - 1]
      case Begin(key, now) => BeginAccounts(cfg, Play(cfg, init), key, now, p);
      case Finish(permit, unauthorized) => FinishAccounts(cfg, Play(cfg, init), permit, unauthorized, p);
    }
  }

  /** The count never passes the limit, and a window's 401s pass it by at most what was stolen from it. */
  lemma CapOnRejections(cfg: Config, steps: seq<Step>, p: Permit)
    ensures var l := Play(cfg, steps);
            && (p.key in l.windows ==> l.windows[p.key].requests <= cfg.limit)
            && l.held[p] + l.kept[p] <= cfg.limit + l.stolen[p]
  {
    PlayAccounts(cfg, steps, p);
    PlayAccounts(cfg, steps, Play(cfg, steps).OpenPermit(p.key));
  }

  // ----- Longer runs

  lemma PlayOneMore(cfg: Config, steps: seq<Step>, step: Step)
    ensures Play(cfg, steps + [step]) == Next(cfg, Play(cfg, steps), step)
  {
    assert (steps + [step])[..|steps|] == steps;
  }

  /** The same step again and again. */
  function Repeated(cfg: Config, l: Ledger, step: Step, k: nat): Ledger {
    if k == 0 then l else Next(cfg, Repeated(cfg, l, step, k - 1), step)
  }

  function Copies(step: Step, k: nat): (steps: seq<Step>)
    ensures |steps| == k && forall i :: 0 <= i < k ==> steps[i] == step
  {
    seq(k, _ => step)
  }

  lemma OneMoreCopy(steps: seq<Step>, step: Step, k: nat)
    ensures steps + Copies(step, k + 1) == steps + Copies(step, k) + [step]
  {
  }

  lemma {:induction false} PlayCopies(cfg: Config, steps: seq<Step>, step: Step, k: nat)
    ensures Play(cfg, steps + Copies(step, k)) == Repeated(cfg, Play(cfg, steps), step, k)
  {
    if k == 0 {
      assert steps + Copies(step, 0) == steps;
    } else {
      PlayCopies(cfg, steps, step, k - 1);
      OneMoreCopy(steps, step, k - 1);
      PlayOneMore(cfg, steps + Copies(step, k - 1), step);
    }
  }
}
