/** Running one step on one host: precheck, bounded retries with exponential
    backoff, rollback; and combining the hosts into the outcome of a node. */
module StepRunner {
  import opened Words
  import opened PlanResult

  // ----- Backoff --------------------------------------------------------------------

  /** The computed delay before the k-th retry: capped above, but not below. */
  function Delay(base: int, max: int, k: nat): int
    requires k >= 1
  {
    var delay := Wrap64(base * ShiftOne(k - 1));
    if delay > max then max else delay
  }

  /** The computed delay in plain arithmetic: base times 2^(k-1), reduced to 64 bits, and never
      more than the cap. */
  lemma DelayIsWrapped(base: int, max: int, k: nat)
    requires k >= 1
    ensures var product := Wrap64(base * Pow2(k - 1)); Delay(base, max, k) == if product > max then max else product
  {
    ShiftIsWrapped(k - 1);
    WrapProduct(base, Pow2(k - 1));
  }

  /** The delay exponential backoff promises. */
  function Promised(base: int, max: int, k: nat): int
    requires k >= 1
  {
    if base * Pow2(k - 1) > max then max else base * Pow2(k - 1)
  }

  /** What is promised: the base, then twice the wait before, but never more than the cap. */
  lemma PromiseDoubles(base: nat, max: nat, k: nat)
    requires k >= 1
    ensures Promised(base, max, 1) == if base > max then max else base
    ensures Promised(base, max, k + 1) ==
            if 2 * Promised(base, max, k) > max then max else 2 * Promised(base, max, k)
  {
    Doubled(base, k);
  }

  lemma ScaleUp(base: int, p: int)
    requires base >= 1 && p >= 1
    ensures base * p >= p
  {
  }

  /** Within 63 bits the shift and the product are exact. */
  lemma NoOverflow(base: int, k: nat)
    requires base >= 1 && k >= 1 && base * Pow2(k - 1) < TWO63
    ensures k - 1 < 63 && Wrap64(base * ShiftOne(k - 1)) == base * Pow2(k - 1)
  {
    ScaleUp(base, Pow2(k - 1));
    if k - 1 >= 63 {
      Pow2At63();
      Pow2Grows(63, k - 1);
      assert false;
    }
  }

  /** The k-th delay is the promised one exactly when the product stays below 2^63, or
      happens to wrap around to at least the cap. */
  lemma DelayExactIff(base: int, max: int, k: nat)
    requires base >= 1 && 0 <= max < TWO63 && k >= 1
    ensures Delay(base, max, k) == Promised(base, max, k)
            <==> base * Pow2(k - 1) < TWO63 || Wrap64(base * ShiftOne(k - 1)) >= max
  {
    if base * Pow2(k - 1) < TWO63 {
      NoOverflow(base, k);
    }
  }

  /** The first product that overflows is at most doubled from one that did not ... */
  lemma {:induction false} FirstOverflow(base: int, m: nat) returns (k: nat)
    requires 1 <= base < TWO63 && m >= 1 && base * Pow2(m - 1) >= TWO63
    ensures 2 <= k <= m && base * Pow2(k - 2) < TWO63 <= base * Pow2(k - 1)
  {
    k := m;
    assert base * Pow2(0) < TWO63;
    if m > 1 && base * Pow2(m - 2) >= TWO63 {
      k := FirstOverflow(base, m - 1);
    }
  }

  /** ... so it always wraps around to a negative delay. */
  lemma FirstOverflowIsNegative(base: int, max: int, k: nat)
    requires base >= 1 && k >= 2 && base * Pow2(k - 2) < TWO63 <= base * Pow2(k - 1)
    ensures Delay(base, max, k) < 0
  {
    NoOverflow(base, k - 1);
    Doubled(base, k - 1);
    if k - 1 == 63 {
      Pow2At63();
      OnlyOne(base);
    }
  }

  lemma Doubled(base: int, n: nat)
    requires n >= 1
    ensures base * Pow2(n) == 2 * (base * Pow2(n - 1))
  {
  }

  lemma OnlyOne(base: int)
    requires base >= 1 && base * 0x4000_0000_0000_0000 < TWO63
    ensures base == 1
  {
  }

  lemma {:induction false} ProductsBelow(base: int, k: nat, m: nat)
    requires base >= 1 && k <= m
    ensures base * Pow2(k) <= base * Pow2(m)
  {
    Pow2Grows(k, m);
    ProductOrder(base, Pow2(k), Pow2(m));
  }

  lemma ProductOrder(base: int, p: int, q: int)
    requires base >= 1 && p <= q
    ensures base * p <= base * q
  {
  }

  /** An executor configured for `m` retries waits as promised before every one of them
      exactly when the longest product stays below 2^63. */
  lemma DelaysExactIff(base: int, max: int, m: nat)
    requires 1 <= base < TWO63 && 0 <= max < TWO63 && m >= 1
    ensures (forall k :: 1 <= k <= m ==> Delay(base, max, k) == Promised(base, max, k)) <==> base * Pow2(m - 1) < TWO63
  {
    if base * Pow2(m - 1) < TWO63 {
      forall k | 1 <= k <= m ensures Delay(base, max, k) == Promised(base, max, k) {
        ProductsBelow(base, k - 1, m - 1);
        NoOverflow(base, k);
      }
    } else {
      var k := FirstOverflow(base, m);
      FirstOverflowIsNegative(base, max, k);
    }
  }

  /** With the default base of one second every retry waits as promised exactly if at most
      34 are configured. */
  lemma DefaultRetriesIff(m: nat)
    requires m >= 1
    ensures (forall k :: 1 <= k <= m ==>
               Delay(1_000_000_000, 30_000_000_000, k) == Promised(1_000_000_000, 30_000_000_000, k)) <==> m <= 34
  {
    DelaysExactIff(1_000_000_000, 30_000_000_000, m);
    Pow2At34();
    if m <= 34 {
      ProductsBelow(1_000_000_000, m - 1, 33);
    } else {
      ProductsBelow(1_000_000_000, 34, m - 1);
    }
  }

  /** With the default base of one second the first 34 retries wait as promised ... */
  lemma DefaultBackoff(k: nat)
    requires 1 <= k <= 34
    ensures Delay(1_000_000_000, 30_000_000_000, k) == Promised(1_000_000_000, 30_000_000_000, k)
  {
    Pow2Grows(k - 1, 33);
    Pow2At34();
    NoOverflow(1_000_000_000, k);
  }

  lemma Pow2At34()
    ensures Pow2(33) == 0x2_0000_0000 && Pow2(34) == 0x4_0000_0000
  {
    assert Pow2(8) == 256;
    assert Pow2(16) == 65536;
    assert Pow2(24) == 0x100_0000;
    assert Pow2(32) == 0x1_0000_0000;
  }

  /** ... and the 35th does not wait at all. */
  lemma DefaultBackoffOverflows()
    ensures Delay(1_000_000_000, 30_000_000_000, 35) < 0
  {
    Pow2At34();
  }

  /** What sleeping costs: a negative delay returns at once. */
  function Slept(delays: seq<int>): nat {
    if delays == [] then 0
    else (if delays[0] > 0 then delays[0] else 0) + Slept(delays[1..])
  }

  lemma {:induction false} SleptBound(delays: seq<int>, max: nat)
    requires forall d :: d in delays ==> d <= max
    ensures Slept(delays) <= |delays| * max
  {
    if delays != [] {
      assert delays[0] in delays && forall d :: d in delays[1..] ==> d in delays;
      SleptBound(delays[1..], max);
      assert |delays| * max == max + |delays[1..]| * max;
    }
  }

  /** However large base, cap and retry count: the waits of one step never add up to
      more than the cap for every allowed retry. */
  lemma TotalSleep(base: int, max: nat, maxRetries: nat, delays: seq<int>)
    requires |delays| <= maxRetries
    requires forall k :: 1 <= k <= |delays| ==> delays[k - 1] == Delay(base, max, k)
    ensures Slept(delays) <= maxRetries * max
  {
    forall d | d in delays ensures d <= max {
      var i :| 0 <= i < |delays| && delays[i] == d;
      assert delays[(i + 1) - 1] == Delay(base, max, i + 1);
    }
    SleptBound(delays, max);
    ProductGrows(|delays|, maxRetries, max);
  }

  lemma ProductGrows(m: nat, n: nat, x: nat)
    requires m <= n
    ensures m * x <= n * x
  {
  }

  // ----- One host -------------------------------------------------------------------

  datatype StepStatus = Completed | Skipped | Failed | Other
  datatype StepResult = NoResult | StepResult(status: StepStatus)

  /** What one call of Run does: it panics, or returns an error flag and a result. */
  datatype Attempt = Panics | Returns(err: bool, result: StepResult)

  datatype Precheck = PrecheckFails | AlreadyDone | Needed

  /** Whether the error variable is set once attempt `k` is over: a panic leaves it as
      the attempt before it did. */
  predicate Erred(run: nat -> Attempt, k: nat) {
    match run(k)
    case Panics => k > 0 && Erred(run, k - 1)
    case Returns(err, _) => err
  }

  predicate Stops(run: nat -> Attempt, ignoreError: bool, maxRetries: nat, k: nat) {
    !Erred(run, k) || ignoreError || k >= maxRetries
  }

  /** `n` is the last attempt: all before it were retried, and it is not. */
  ghost predicate IsLast(run: nat -> Attempt, ignoreError: bool, maxRetries: nat, n: nat) {
    && n <= maxRetries
    && (forall k :: 0 <= k < n ==> !Stops(run, ignoreError, maxRetries, k))
    && Stops(run, ignoreError, maxRetries, n)
  }

  function PanicCount(run: nat -> Attempt, n: nat): nat {
    if n == 0 then 0 else PanicCount(run, n - 1) + if run(n - 1).Panics? then 1 else 0
  }

  /** The result variable after the attempts up to `n`. */
  function ResultAfter(run: nat -> Attempt, n: nat): StepResult {
    match run(n)
    case Panics => if n == 0 then NoResult else ResultAfter(run, n - 1)
    case Returns(_, result) => result
  }

  /** Whether the step counts as failed when attempt `n` was its last. */
  ghost predicate StepFails(run: nat -> Attempt, ignoreError: bool, n: nat) {
    if Erred(run, n) then !ignoreError else ResultAfter(run, n) == StepResult(StepStatus.Failed)
  }

  lemma LastIsUnique(run: nat -> Attempt, ignoreError: bool, maxRetries: nat, m: nat, n: nat)
    requires IsLast(run, ignoreError, maxRetries, m) && IsLast(run, ignoreError, maxRetries, n)
    ensures m == n
  {
    assert m < n ==> !Stops(run, ignoreError, maxRetries, m);
    assert n < m ==> !Stops(run, ignoreError, maxRetries, n);
  }

  /** Whether a host with this precheck and these attempts ends Failed. */
  ghost predicate HostFails(precheck: Precheck, run: nat -> Attempt, ignoreError: bool, maxRetries: nat) {
    || precheck.PrecheckFails?
    || (precheck.Needed? && exists n :: IsLast(run, ignoreError, maxRetries, n) && StepFails(run, ignoreError, n))
  }

  /** What decides about the step, read off its last attempt: an error counts unless errors are
      ignored, a result counts only without an error, and a panic counts exactly if the step had
      been tried before. */
  lemma LastDecides(run: nat -> Attempt, ignoreError: bool, maxRetries: nat, n: nat)
    requires IsLast(run, ignoreError, maxRetries, n)
    ensures StepFails(run, ignoreError, n) <==>
            match run(n)
            case Panics => n > 0
            case Returns(err, result) => if err then !ignoreError else result == StepResult(StepStatus.Failed)
  {
    if n > 0 {
      assert !Stops(run, ignoreError, maxRetries, n - 1);
    }
  }

  /** Which attempt is the last: the ones before it returned an error or, from the second on,
      panicked, and errors are not ignored; it is the first that has no error, the first at all
      if errors are ignored, or the last one allowed. */
  lemma {:induction false} RetriedIff(run: nat -> Attempt, ignoreError: bool, maxRetries: nat, n: nat)
    requires IsLast(run, ignoreError, maxRetries, n)
    ensures forall k :: 0 <= k < n ==> (if run(k).Panics? then k > 0 else run(k).err)
    ensures n > 0 ==> !ignoreError
    ensures n < maxRetries && !ignoreError ==> if run(n).Panics? then n == 0 else !run(n).err
  {
    forall k | 0 <= k < n ensures if run(k).Panics? then k > 0 else run(k).err {
      assert !Stops(run, ignoreError, maxRetries, k);
    }
    if n > 0 {
      assert !Stops(run, ignoreError, maxRetries, n - 1);
    }
  }

  method RunStepOnHost(precheck: Precheck, run: nat -> Attempt, ignoreError: bool, maxRetries: nat, base: int, max: int)
    returns (status: Status, runs: nat, rollbacks: nat, delays: seq<int>)
    ensures precheck.PrecheckFails? ==> status.Failed? && runs == 0
    ensures precheck.AlreadyDone? ==> status.Success? && runs == 0
    ensures !precheck.Needed? ==> rollbacks == 0 && delays == []
    ensures precheck.Needed? ==> runs > 0 && IsLast(run, ignoreError, maxRetries, runs - 1)
    ensures precheck.Needed? ==>
              rollbacks == PanicCount(run, runs) + if Erred(run, runs - 1) && !ignoreError then 1 else 0
    ensures precheck.Needed? ==>
              |delays| == runs - 1 && forall k :: 1 <= k < runs ==> delays[k - 1] == Delay(base, max, k)
    ensures precheck.Needed? ==>
              (status.Failed? <==>
               match run(runs - 1)
               case Panics => runs > 1
               case Returns(err, result) => if err then !ignoreError else result == StepResult(StepStatus.Failed))
    ensures precheck.Needed? ==> (status.Failed? <==> StepFails(run, ignoreError, runs - 1))
    ensures status.Failed? <==> HostFails(precheck, run, ignoreError, maxRetries)
    ensures status.Failed? || status.Success?
  {
    runs, rollbacks, delays := 0, 0, [];
    if precheck.PrecheckFails? {
      return Status.Failed, runs, rollbacks, delays;
    }
    if precheck.AlreadyDone? {
      return Success, runs, rollbacks, delays;
    }
    var runErr := false;
    var result := NoResult;
    var attempt := 0;
    while attempt <= maxRetries
      invariant 0 <= attempt <= maxRetries && runs == attempt
      invariant forall k :: 0 <= k < attempt ==> !Stops(run, ignoreError, maxRetries, k)
      invariant rollbacks == PanicCount(run, attempt)
      invariant attempt == 0 ==> !runErr && result == NoResult && delays == []
      invariant attempt > 0 ==> runErr == Erred(run, attempt - 1) && result == ResultAfter(run, attempt - 1)
      invariant attempt > 0 ==> |delays| == attempt - 1
      invariant forall k :: 1 <= k < attempt ==> delays[k - 1] == Delay(base, max, k)
      decreases maxRetries - attempt
    {
      if attempt > 0 {
        delays := delays + [Delay(base, max, attempt)];
      }
      runs := runs + 1;
      match run(attempt) {
        case Panics =>
          rollbacks := rollbacks + 1;
        case Returns(err, res) =>
          runErr, result := err, res;
      }
      if !runErr || ignoreError || attempt >= maxRetries {
        break;
      }
      attempt := attempt + 1;
    }
    if runErr {
      if ignoreError {
        status := Success;
      } else {
        status := Status.Failed;
        rollbacks := rollbacks + 1;
      }
    } else {
      status := match result
        case StepResult(Failed) => Status.Failed
        case _ => Success;
    }
    forall n | IsLast(run, ignoreError, maxRetries, n) ensures n == runs - 1 {
      LastIsUnique(run, ignoreError, maxRetries, n, runs - 1);
    }
    LastDecides(run, ignoreError, maxRetries, runs - 1);
  }

  ghost predicate NeverPanics(run: nat -> Attempt) {
    forall k :: !run(k).Panics?
  }

  /** The machine without panics: at most maxRetries+1 runs, one if errors are ignored;
      every run but the last returned an error; the rollback runs exactly once if the
      last error counts, and never otherwise. */
  lemma RetryContract(run: nat -> Attempt, ignoreError: bool, maxRetries: nat, n: nat)
    requires NeverPanics(run) && IsLast(run, ignoreError, maxRetries, n)
    ensures n <= maxRetries && (ignoreError ==> n == 0)
    ensures forall k :: 0 <= k < n ==> run(k).err
    ensures n < maxRetries && !ignoreError ==> !run(n).err
    ensures PanicCount(run, n + 1) == 0
    ensures ResultAfter(run, n) == run(n).result && Erred(run, n) == run(n).err
  {
    if n > 0 {
      assert !Stops(run, ignoreError, maxRetries, 0);
    }
    forall k | 0 <= k < n ensures run(k).err {
      assert !Stops(run, ignoreError, maxRetries, k);
    }
    NoPanicsCounted(run, n + 1);
  }

  lemma {:induction false} NoPanicsCounted(run: nat -> Attempt, n: nat)
    requires NeverPanics(run)
    ensures PanicCount(run, n) == 0
  {
    if n > 0 {
      NoPanicsCounted(run, n - 1);
    }
  }

  /** A step whose last run panicked ends Failed exactly when the panic was not in the
      first attempt: there the error variable is still empty and the host counts as
      Success, although it was rolled back. */
  lemma PanicFailsIff(run: nat -> Attempt, ignoreError: bool, maxRetries: nat, n: nat)
    requires IsLast(run, ignoreError, maxRetries, n) && run(n).Panics?
    ensures StepFails(run, ignoreError, n) <==> !run(0).Panics?
  {
    if n > 0 {
      assert !Stops(run, ignoreError, maxRetries, 0);
      assert !Stops(run, ignoreError, maxRetries, n - 1);
    }
  }

  /** It happens: a step that panics at once is not retried, is rolled back, and has not
      failed. */
  lemma PanicCountsAsSuccess(maxRetries: nat)
    ensures var run := (k: nat) => Panics;
            IsLast(run, false, maxRetries, 0) && PanicCount(run, 1) == 1 && !StepFails(run, false, 0)
            && !HostFails(Needed, run, false, maxRetries)
  {
    var run := (k: nat) => Panics;
    assert IsLast(run, false, maxRetries, 0);
    assert PanicCount(run, 1) == PanicCount(run, 0) + 1;
    forall n | IsLast(run, false, maxRetries, n) ensures n == 0 {
      LastIsUnique(run, false, maxRetries, n, 0);
    }
  }

  // ----- One node -------------------------------------------------------------------

  datatype Condition = Absent | Met | NotMet | CheckFails

  /** What a step will do on one host. */
  datatype HostStep = HostStep(name: string, precheck: Precheck, run: nat -> Attempt)

  ghost predicate Fails(h: HostStep, ignoreError: bool, maxRetries: nat) {
    HostFails(h.precheck, h.run, ignoreError, maxRetries)
  }

  ghost predicate SomeHostFails(hosts: seq<HostStep>, ignoreError: bool, maxRetries: nat) {
    exists i :: 0 <= i < |hosts| && Fails(hosts[i], ignoreError, maxRetries)
  }

  /** Failure of a host whose step never panics, said of its attempts alone: the precheck fails;
      or, if errors are ignored, the first run has no error and the result Failed; or else every
      run allowed errs, or the first that does not has the result Failed. */
  ghost predicate FailsPlainly(h: HostStep, ignoreError: bool, maxRetries: nat) {
    || h.precheck == PrecheckFails
    || (h.precheck == Needed && if ignoreError then ReturnsFailed(h.run, 0) else
        || (forall k :: 0 <= k <= maxRetries ==> ReturnsError(h.run, k))
        || (exists n :: 0 <= n <= maxRetries && ReturnsFailed(h.run, n)
                        && forall k :: 0 <= k < n ==> ReturnsError(h.run, k)))
  }

  predicate ReturnsError(run: nat -> Attempt, k: nat) {
    run(k).Returns? && run(k).err
  }

  predicate ReturnsFailed(run: nat -> Attempt, k: nat) {
    run(k).Returns? && !run(k).err && run(k).result == StepResult(StepStatus.Failed)
  }

  ghost predicate SomeFailsPlainly(hosts: seq<HostStep>, ignoreError: bool, maxRetries: nat) {
    exists i :: 0 <= i < |hosts| && FailsPlainly(hosts[i], ignoreError, maxRetries)
  }

  /** Some attempt is the last. */
  lemma {:induction false} SomeLast(run: nat -> Attempt, ignoreError: bool, maxRetries: nat, from: nat)
    returns (n: nat)
    requires from <= maxRetries && forall k :: 0 <= k < from ==> !Stops(run, ignoreError, maxRetries, k)
    ensures IsLast(run, ignoreError, maxRetries, n)
    decreases maxRetries - from
  {
    if Stops(run, ignoreError, maxRetries, from) {
      n := from;
    } else {
      n := SomeLast(run, ignoreError, maxRetries, from + 1);
    }
  }

  lemma HostFailsIff(h: HostStep, ignoreError: bool, maxRetries: nat)
    requires NeverPanics(h.run)
    ensures Fails(h, ignoreError, maxRetries) <==> FailsPlainly(h, ignoreError, maxRetries)
  {
    var n := SomeLast(h.run, ignoreError, maxRetries, 0);
    RetryContract(h.run, ignoreError, maxRetries, n);
    LastDecides(h.run, ignoreError, maxRetries, n);
    forall m | IsLast(h.run, ignoreError, maxRetries, m) ensures m == n {
      LastIsUnique(h.run, ignoreError, maxRetries, m, n);
    }
    if !ignoreError {
      FirstWithoutError(h.run, maxRetries, n);
    }
  }

  lemma FirstWithoutError(run: nat -> Attempt, maxRetries: nat, n: nat)
    requires n <= maxRetries && forall k :: 0 <= k < n ==> ReturnsError(run, k)
    requires n < maxRetries ==> !ReturnsError(run, n)
    ensures (|| (forall k :: 0 <= k <= maxRetries ==> ReturnsError(run, k))
             || (exists m :: 0 <= m <= maxRetries && ReturnsFailed(run, m)
                             && forall k :: 0 <= k < m ==> ReturnsError(run, k)))
            <==> ReturnsError(run, n) || ReturnsFailed(run, n)
  {
    if m :| 0 <= m <= maxRetries && ReturnsFailed(run, m) && forall k :: 0 <= k < m ==> ReturnsError(run, k) {
      assert !ReturnsError(run, m);
    }
  }

  lemma SomeFailIff(hosts: seq<HostStep>, ignoreError: bool, maxRetries: nat)
    requires forall i :: 0 <= i < |hosts| ==> NeverPanics(hosts[i].run)
    ensures SomeHostFails(hosts, ignoreError, maxRetries) <==> SomeFailsPlainly(hosts, ignoreError, maxRetries)
  {
    forall i | 0 <= i < |hosts|
      ensures Fails(hosts[i], ignoreError, maxRetries) <==> FailsPlainly(hosts[i], ignoreError, maxRetries)
    {
      HostFailsIff(hosts[i], ignoreError, maxRetries);
    }
  }

  ghost predicate DistinctNames(hosts: seq<HostStep>) {
    forall i, j :: 0 <= i < j < |hosts| ==> hosts[i].name != hosts[j].name
  }

  /** The results by host name speak of hosts that are through, one each. */
  ghost predicate Recorded(hosts: seq<HostStep>, pending: set<nat>, results: map<string, Status>, ignoreError: bool,
                           maxRetries: nat) {
    && (forall i :: 0 <= i < |hosts| && i !in pending ==> hosts[i].name in results)
    && (forall name :: name in results ==> RecordedFrom(hosts, pending, name, results[name], ignoreError, maxRetries))
  }

  ghost predicate RecordedFrom(hosts: seq<HostStep>, pending: set<nat>, name: string, status: Status,
                               ignoreError: bool, maxRetries: nat) {
    exists i :: 0 <= i < |hosts| && i !in pending && hosts[i].name == name
                && (status.Failed? <==> Fails(hosts[i], ignoreError, maxRetries))
  }

  lemma RecordOne(hosts: seq<HostStep>, pending: set<nat>, results: map<string, Status>, ignoreError: bool,
                  maxRetries: nat, i: nat, status: Status)
    requires Recorded(hosts, pending, results, ignoreError, maxRetries) && i < |hosts|
    requires status.Failed? <==> Fails(hosts[i], ignoreError, maxRetries)
    ensures Recorded(hosts, pending - {i}, results[hosts[i].name := status], ignoreError, maxRetries)
  {
    var next := results[hosts[i].name := status];
    forall name | name in next
      ensures RecordedFrom(hosts, pending - {i}, name, next[name], ignoreError, maxRetries)
    {
      if name != hosts[i].name {
        assert RecordedFrom(hosts, pending, name, results[name], ignoreError, maxRetries);
      }
    }
  }

  lemma AllRecorded(hosts: seq<HostStep>, results: map<string, Status>, ignoreError: bool, maxRetries: nat)
    requires Recorded(hosts, {}, results, ignoreError, maxRetries)
    ensures AnyFailed(results) ==> SomeHostFails(hosts, ignoreError, maxRetries)
    ensures DistinctNames(hosts) && SomeHostFails(hosts, ignoreError, maxRetries) ==> AnyFailed(results)
  {
    if name :| name in results && results[name].Failed? {
      assert RecordedFrom(hosts, {}, name, results[name], ignoreError, maxRetries);
    }
    if DistinctNames(hosts) && SomeHostFails(hosts, ignoreError, maxRetries) {
      var i :| 0 <= i < |hosts| && Fails(hosts[i], ignoreError, maxRetries);
      var name := hosts[i].name;
      assert RecordedFrom(hosts, {}, name, results[name], ignoreError, maxRetries);
    }
  }

  function Indices(n: nat): (indices: set<nat>)
    ensures forall i :: i in indices <==> 0 <= i < n
  {
    if n == 0 then {} else Indices(n - 1) + {n - 1}
  }

  /** Runs the step on every host; the hosts finish in any order, and two hosts of the same
      name share one entry of the results. */
  method RunOnHosts(hosts: seq<HostStep>, ignoreError: bool, maxRetries: nat, base: int, max: int)
    returns (results: map<string, Status>)
    ensures Recorded(hosts, {}, results, ignoreError, maxRetries)
  {
    results := map[];
    var pending := Indices(|hosts|);
    while pending != {}
      invariant Recorded(hosts, pending, results, ignoreError, maxRetries)
      invariant pending <= Indices(|hosts|)
      decreases pending
    {
      var i :| i in pending;
      var status, _, _, _ := RunStepOnHost(hosts[i].precheck, hosts[i].run, ignoreError, maxRetries, base, max);
      RecordOne(hosts, pending, results, ignoreError, maxRetries, i, status);
      results := results[hosts[i].name := status];
      pending := pending - {i};
    }
  }

  /** From the attempts on the hosts to the report of a node: always Success, Failed or
      Skipped; Skipped exactly if its condition is not met; Failed if the condition cannot be
      checked, otherwise only if the step fails on some host, and always then if no two hosts
      have the same name. */
  method RunNode(condition: Condition, hosts: seq<HostStep>, ignoreError: bool, maxRetries: nat, base: int, max: int)
    returns (status: Status)
    ensures IsReport(status)
    ensures status.Skipped? <==> condition.NotMet?
    ensures condition.CheckFails? ==> status.Failed?
    ensures status.Failed? ==> condition.CheckFails? || SomeHostFails(hosts, ignoreError, maxRetries)
    ensures DistinctNames(hosts) && !condition.NotMet? && SomeHostFails(hosts, ignoreError, maxRetries) ==>
              status.Failed?
    ensures DistinctNames(hosts) && (forall i :: 0 <= i < |hosts| ==> NeverPanics(hosts[i].run)) ==>
              (status.Failed? <==>
               condition.CheckFails? || (!condition.NotMet? && SomeFailsPlainly(hosts, ignoreError, maxRetries)))
  {
    if forall i :: 0 <= i < |hosts| ==> NeverPanics(hosts[i].run) {
      SomeFailIff(hosts, ignoreError, maxRetries);
    }
    if condition.CheckFails? {
      return Status.Failed;
    }
    if condition.NotMet? {
      return Status.Skipped;
    }
    var results := RunOnHosts(hosts, ignoreError, maxRetries, base, max);
    AllRecorded(hosts, results, ignoreError, maxRetries);
    var node := new NodeResult(results);
    node.AggregateStatus();
    status := node.status;
  }
}
