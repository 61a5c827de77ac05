/**
 The job executor: a terminal error or a spent retry budget ends the job through the last-attempt hook,
 any other error asks for a retry after a capped exponential delay. Delays are exact reals in seconds.
 */
module RetryExecutor {
  import Accounts

  datatype Policy = Policy(maxAttempts: nat, initialDelay: real, maxDelay: real, multiplier: real, hasHook: bool)

  /** How the wrapped entrypoint ends: normally, with a TerminalJobError, or with any other exception. */
  datatype Result = Succeeded | TerminalError | OtherError

  /** What the executor makes of it; a hook is taken not to raise. */
  datatype Fate = Done | LastAttempt(hookCalls: nat) | Retry(delay: real)

  function Power(base: real, n: nat): real {
    if n == 0 then 1.0 else base * Power(base, n - 1)
  }

  function Delay(policy: Policy, attempts: nat): real {
    var delay := policy.initialDelay * Power(policy.multiplier, attempts);
    if delay <= policy.maxDelay then delay else policy.maxDelay
  }

  function Fail(policy: Policy): Fate {
    LastAttempt(if policy.hasHook then 1 else 0)
  }

  function Execute(policy: Policy, attempts: nat, result: Result): Fate {
    match result
    case Succeeded => Done
    case TerminalError => Fail(policy)
    case OtherError => if attempts >= policy.maxAttempts then Fail(policy) else Retry(Delay(policy, attempts))
  }

  /** A job from its current attempts counter on; the counter grows by one with every retry. */
  function Lifetime(policy: Policy, handler: nat -> Result, attempts: nat): seq<Fate>
    decreases if attempts <= policy.maxAttempts then policy.maxAttempts - attempts else 0
  {
    var fate := Execute(policy, attempts, handler(attempts));
    if fate.Retry? then [fate] + Lifetime(policy, handler, attempts + 1) else [fate]
  }

  function HookCalls(fates: seq<Fate>): nat {
    if fates == [] then 0
    else (match fates[0] case LastAttempt(n) => n case _ => 0) + HookCalls(fates[1..])
  }

  /** The attempt settles the job: it succeeds, fails terminally, or is the last one allowed. */
  predicate Settles(policy: Policy, handler: nat -> Result, attempts: nat) {
    handler(attempts) != OtherError || attempts >= policy.maxAttempts
  }

  /** Every attempt before the first settling one is retried with its own delay; that one ends the job. */
  lemma {:induction false} LifetimeEndsAtFirstSettling(policy: Policy, handler: nat -> Result, attempts: nat, last: nat)
    requires attempts <= last && Settles(policy, handler, last)
    requires forall k :: attempts <= k < last ==> !Settles(policy, handler, k)
    ensures
      var fates := Lifetime(policy, handler, attempts);
      && |fates| == last - attempts + 1
      && (forall i :: 0 <= i < last - attempts ==> fates[i] == Retry(Delay(policy, attempts + i)))
      && fates[last - attempts] == (if handler(last) == Succeeded then Done else Fail(policy))
      && HookCalls(fates) == (if handler(last) == Succeeded || !policy.hasHook then 0 else 1)
    decreases last - attempts
  {
    if attempts < last {
      assert !Settles(policy, handler, attempts);
      LifetimeEndsAtFirstSettling(policy, handler, attempts + 1, last);
      var rest := Lifetime(policy, handler, attempts + 1);
      assert Lifetime(policy, handler, attempts) == [Retry(Delay(policy, attempts))] + rest;
      assert ([Retry(Delay(policy, attempts))] + rest)[1..] == rest;
    }
  }

  /** A job that always fails non-terminally runs max_attempts + 1 times, and the hook fires once, at the end. */
  lemma {:induction false} RetryBudget(policy: Policy, handler: nat -> Result)
    requires forall k :: handler(k) == OtherError
    ensures
      var fates := Lifetime(policy, handler, 0);
      && |fates| == policy.maxAttempts + 1
      && (forall k :: 0 <= k < policy.maxAttempts ==> fates[k].Retry?)
      && fates[policy.maxAttempts] == Fail(policy)
      && HookCalls(fates) == (if policy.hasHook then 1 else 0)
  {
    LifetimeEndsAtFirstSettling(policy, handler, 0, policy.maxAttempts);
  }

  lemma {:induction false} PowerGrows(base: real, n: nat)
    requires base >= 1.0
    ensures 1.0 <= Power(base, n) <= Power(base, n + 1)
  {
    if n > 0 {
      PowerGrows(base, n - 1);
    }
    var p := Power(base, n);
    assert (base - 1.0) * p >= 0.0;
  }

  /** Delays never shrink from one attempt to the next and never exceed the cap. */
  lemma {:induction false} DelaysGrowToTheCap(policy: Policy, i: nat, j: nat)
    requires policy.multiplier >= 1.0 && policy.initialDelay >= 0.0 && i <= j
    ensures Delay(policy, i) <= Delay(policy, j) <= policy.maxDelay
  {
    if i < j {
      DelaysGrowToTheCap(policy, i, j - 1);
      DelayStep(policy, j - 1);
    }
  }

  lemma {:induction false} DelayStep(policy: Policy, n: nat)
    requires policy.multiplier >= 1.0 && policy.initialDelay >= 0.0
    ensures Delay(policy, n) <= Delay(policy, n + 1) <= policy.maxDelay
  {
    var x, y := Power(policy.multiplier, n), Power(policy.multiplier, n + 1);
    PowerGrows(policy.multiplier, n);
    ScaleMonotone(policy.initialDelay, x, y);
  }

  lemma {:induction false} ScaleMonotone(scale: real, x: real, y: real)
    requires scale >= 0.0 && x <= y
    ensures scale * x <= scale * y
  {
    assert scale * (y - x) >= 0.0;
  }

  /** The capped closed form is the capped recurrence: each delay is the last one times the multiplier. */
  lemma {:induction false} DelayRecurrence(policy: Policy, n: nat)
    requires policy.multiplier >= 1.0 && policy.initialDelay >= 0.0 && policy.maxDelay >= 0.0
    ensures Delay(policy, 0)
        == (if policy.initialDelay <= policy.maxDelay then policy.initialDelay else policy.maxDelay)
    ensures var scaled := policy.multiplier * Delay(policy, n);
            Delay(policy, n + 1) == if scaled <= policy.maxDelay then scaled else policy.maxDelay
  {
    var x, y := Power(policy.multiplier, n), Power(policy.multiplier, n + 1);
    PowerGrows(policy.multiplier, n);
    ScaleMonotone(policy.initialDelay, x, y);
    assert policy.initialDelay * y == policy.multiplier * (policy.initialDelay * x);
    assert (policy.multiplier - 1.0) * policy.maxDelay >= 0.0;
  }

  // ------------------------------------------------------------------ payment jobs

  /** What the payment handler raises for each outcome. */
  function Raised(outcome: Accounts.Outcome): Result {
    match outcome
    case UnknownAccount => OtherError
    case NotActive => TerminalError
    case NoLedger => TerminalError
    case Insufficient => TerminalError
    case _ => Succeeded
  }

  /**
   A payment that arrives before its account is retried until the account is committed, and settled by
   the first attempt that sees it, provided that attempt is within the budget.
   */
  lemma {:induction false} PaymentWaitsForItsAccount(policy: Policy,
                                                     stores: nat -> Accounts.Store, p: Accounts.Payment, known: nat)
    requires known <= policy.maxAttempts && stores(known).account.Some?
    requires forall k :: 0 <= k < known ==> stores(k).account.None?
    ensures
      var fates := Lifetime(policy, (k: nat) => Raised(Accounts.Settle(stores(k), p).1), 0);
      var outcome := Accounts.Settle(stores(known), p).1;
      && |fates| == known + 1
      && (fates[known] == Done <==> outcome == Accounts.Accepted || outcome == Accounts.Duplicate)
  {
    LifetimeEndsAtFirstSettling(policy, (k: nat) => Raised(Accounts.Settle(stores(k), p).1), 0, known);
  }
}
