/** The lock-free counter: threads incrementing one cache entry by load, load-or-store
    and compare-and-swap, in any interleaving. */
module CounterCas {
  import opened Wrappers
  import opened TieredCache
  import opened Words

  /** A cache entry holds any value; only a 64-bit integer can be counted. */
  datatype Value = Number(n: int) | OtherType

  type Entry = Option<Item<Value>>

  /** Where a thread is.  `at` and `turn` are history: how many operations had been
      completed when it read the entry, and which one its own was. */
  datatype Thread =
    | Start(delta: int)
    | FoundNothing(delta: int)
    | Read(delta: int, seen: Item<Value>, at: nat)
    | Done(delta: int, result: int, turn: nat)
    | TypeError(delta: int)

  datatype State = State(entry: Entry, threads: map<nat, Thread>, log: seq<int>)

  datatype Step = Load(t: nat) | LoadOrStore(t: nat) | CompareAndSwap(t: nat)

  predicate Enabled(s: State, a: Step) {
    a.t in s.threads &&
    match a
    case Load(t) => s.threads[t].Start?
    case LoadOrStore(t) => s.threads[t].FoundNothing?
    case CompareAndSwap(t) => s.threads[t].Read? && s.threads[t].seen.value.Number?
  }

  /** A thread that saw an entry goes on with it if it holds an integer. */
  function Saw(delta: int, item: Item<Value>, at: nat): Thread {
    if item.value.Number? then Read(delta, item, at) else TypeError(delta)
  }

  function Apply(s: State, a: Step): State
    requires Enabled(s, a)
  {
    var th := s.threads[a.t];
    match a
    case Load(t) =>
      if s.entry.None? then s.(threads := s.threads[t := FoundNothing(th.delta)])
      else s.(threads := s.threads[t := Saw(th.delta, s.entry.value, |s.log|)])
    case LoadOrStore(t) =>
      if s.entry.None? then
        State(Some(Item(Number(th.delta), 0)),
              s.threads[t := Done(th.delta, th.delta, |s.log| + 1)], s.log + [th.delta])
      else s.(threads := s.threads[t := Saw(th.delta, s.entry.value, |s.log|)])
    case CompareAndSwap(t) =>
      if s.entry == Some(th.seen) then
        var newValue := Wrap64(th.seen.value.n + th.delta);
        State(Some(th.seen.(value := Number(newValue))),
              s.threads[t := Done(th.delta, newValue, |s.log| + 1)], s.log + [th.delta])
      else s.(threads := s.threads[t := Start(th.delta)])
  }

  // ----- The specification ------------------------------------------------------------

  function Sum(log: seq<int>): int {
    if log == [] then 0 else Sum(log[..|log| - 1]) + log[|log| - 1]
  }

  function Base(init: Entry): int {
    if init.Some? && init.value.value.Number? then init.value.value.n else 0
  }

  /** The running total, in 64-bit arithmetic. */
  function Total(init: Entry, log: seq<int>): int {
    Wrap64(Base(init) + Sum(log))
  }

  /** What the entry is once the logged operations have been completed. */
  function EntryAfter(init: Entry, log: seq<int>): Entry {
    if log == [] then init
    else Some(Item(Number(Total(init, log)), if init.Some? then init.value.expiration else 0))
  }

  predicate Fits(x: int) {
    -TWO63 <= x < TWO63
  }

  lemma {:induction false} WrapAdd(a: int, b: int)
    ensures Wrap64(Wrap64(a) + b) == Wrap64(a + b)
  {
    var q := (a + TWO63) / TWO64;
    assert Wrap64(a) == a - q * TWO64;
    ModShift(a + b + TWO63, q);
  }

  lemma TotalNext(init: Entry, log: seq<int>, delta: int)
    ensures Total(init, log + [delta]) == Wrap64(Total(init, log) + delta)
  {
    assert (log + [delta])[..|log|] == log;
    WrapAdd(Base(init) + Sum(log), delta);
  }

  // ----- The invariant ----------------------------------------------------------------

  ghost predicate ThreadFits(init: Entry, log: seq<int>, th: Thread) {
    match th
    case Start(d) => Fits(d)
    case FoundNothing(d) => Fits(d)
    case Read(d, seen, at) =>
      Fits(d) && at <= |log| && seen.value.Number? && EntryAfter(init, log[..at]) == Some(seen)
    case Done(d, result, turn) =>
      0 < turn <= |log| && log[turn - 1] == d && result == Total(init, log[..turn])
    case TypeError(_) => init.Some? && init.value.value.OtherType?
  }

  ghost predicate TurnTaken(threads: map<nat, Thread>, turn: nat) {
    exists t :: t in threads && threads[t].Done? && threads[t].turn == turn
  }

  ghost predicate EntryFits(init: Entry, s: State) {
    && (init.Some? && init.value.value.Number? ==> Fits(init.value.value.n))
    && (init.Some? && init.value.value.OtherType? ==> s.log == [])
    && s.entry == EntryAfter(init, s.log)
  }

  /** Completed operations and log positions correspond one to one. */
  ghost predicate TurnsFit(threads: map<nat, Thread>, n: nat) {
    && (forall t, u :: t in threads && u in threads && t != u && threads[t].Done? && threads[u].Done? ==>
          threads[t].turn != threads[u].turn)
    && (forall t :: t in threads && threads[t].Done? ==> 0 < threads[t].turn <= n)
    && (forall k :: 0 < k <= n ==> TurnTaken(threads, k))
  }

  ghost predicate Inv(init: Entry, s: State) {
    && EntryFits(init, s)
    && (forall t :: t in s.threads ==> ThreadFits(init, s.log, s.threads[t]))
    && TurnsFit(s.threads, |s.log|)
  }

  lemma LaterStillFits(init: Entry, log: seq<int>, delta: int, th: Thread)
    requires ThreadFits(init, log, th)
    ensures ThreadFits(init, log + [delta], th)
  {
    if th.Read? {
      assert (log + [delta])[..th.at] == log[..th.at];
    }
    if th.Done? {
      assert (log + [delta])[..th.turn] == log[..th.turn];
    }
  }

  lemma TurnAdded(threads: map<nat, Thread>, n: nat, t: nat, result: int)
    requires TurnsFit(threads, n) && t in threads && !threads[t].Done?
    ensures TurnsFit(threads[t := Done(threads[t].delta, result, n + 1)], n + 1)
  {
    var after := threads[t := Done(threads[t].delta, result, n + 1)];
    forall k | 0 < k <= n + 1 ensures TurnTaken(after, k) {
      if k == n + 1 {
        assert after[t].turn == k;
      } else {
        assert TurnTaken(threads, k);
        var u :| u in threads && threads[u].Done? && threads[u].turn == k;
        assert after[u].turn == k;
      }
    }
  }

  lemma TurnsKept(threads: map<nat, Thread>, n: nat, t: nat, th: Thread)
    requires TurnsFit(threads, n) && t in threads && !threads[t].Done? && !th.Done?
    ensures TurnsFit(threads[t := th], n)
  {
    var after := threads[t := th];
    forall k | 0 < k <= n ensures TurnTaken(after, k) {
      assert TurnTaken(threads, k);
      var u :| u in threads && threads[u].Done? && threads[u].turn == k;
      assert after[u].turn == k;
    }
  }

  lemma SawFits(init: Entry, s: State, delta: int)
    requires EntryFits(init, s) && s.entry.Some? && Fits(delta)
    ensures ThreadFits(init, s.log, Saw(delta, s.entry.value, |s.log|))
    ensures !Saw(delta, s.entry.value, |s.log|).Done?
  {
    assert s.log[..|s.log|] == s.log;
  }

  /** A completed operation moves the entry to the next running total. */
  lemma CompletedFits(init: Entry, s: State, delta: int, result: int, item: Item<Value>)
    requires EntryFits(init, s) && result == Total(init, s.log + [delta])
    requires init.Some? ==> init.value.value.Number?
    requires item == Item(Number(result), if init.Some? then init.value.expiration else 0)
    ensures EntryFits(init, s.(entry := Some(item), log := s.log + [delta]))
    ensures ThreadFits(init, s.log + [delta], Done(delta, result, |s.log| + 1))
  {
    assert (s.log + [delta])[..|s.log| + 1] == s.log + [delta];
  }

  lemma ThreadsAfter(init: Entry, s: State, t: nat, th: Thread, delta: int)
    requires forall u :: u in s.threads ==> ThreadFits(init, s.log, s.threads[u])
    requires ThreadFits(init, s.log + [delta], th)
    ensures var after := s.threads[t := th]; forall u :: u in after ==> ThreadFits(init, s.log + [delta], after[u])
  {
    forall u | u in s.threads ensures ThreadFits(init, s.log + [delta], s.threads[u]) {
      LaterStillFits(init, s.log, delta, s.threads[u]);
    }
  }

  lemma StoreFirst(init: Entry, s: State, t: nat)
    requires Inv(init, s) && Enabled(s, LoadOrStore(t)) && s.entry.None?
    ensures Inv(init, Apply(s, LoadOrStore(t)))
  {
    var delta := s.threads[t].delta;
    TotalNext(init, s.log, delta);
    CompletedFits(init, s, delta, delta, Item(Number(delta), 0));
    ThreadsAfter(init, s, t, Done(delta, delta, |s.log| + 1), delta);
    TurnAdded(s.threads, |s.log|, t, delta);
  }

  /** A swap that succeeds adds to the current total, even if the entry changed and
      changed back since it was read. */
  lemma SwapSucceeds(init: Entry, s: State, t: nat)
    requires Inv(init, s) && Enabled(s, CompareAndSwap(t)) && s.entry == Some(s.threads[t].seen)
    ensures Inv(init, Apply(s, CompareAndSwap(t)))
  {
    var th := s.threads[t];
    var newValue := Wrap64(th.seen.value.n + th.delta);
    assert th.seen.value.n == Total(init, s.log);
    TotalNext(init, s.log, th.delta);
    CompletedFits(init, s, th.delta, newValue, th.seen.(value := Number(newValue)));
    ThreadsAfter(init, s, t, Done(th.delta, newValue, |s.log| + 1), th.delta);
    TurnAdded(s.threads, |s.log|, t, newValue);
  }

  lemma StepInv(init: Entry, s: State, a: Step)
    requires Inv(init, s) && Enabled(s, a)
    ensures Inv(init, Apply(s, a))
  {
    var th := s.threads[a.t];
    assert ThreadFits(init, s.log, th);
    if a.LoadOrStore? && s.entry.None? {
      StoreFirst(init, s, a.t);
    } else if a.CompareAndSwap? && s.entry == Some(th.seen) {
      SwapSucceeds(init, s, a.t);
    } else {
      var next := Apply(s, a).threads[a.t];
      if !a.CompareAndSwap? && s.entry.Some? {
        SawFits(init, s, th.delta);
      }
      TurnsKept(s.threads, |s.log|, a.t, next);
    }
  }

  // ----- Whole runs -------------------------------------------------------------------

  ghost predicate Course(s: State, steps: seq<Step>, end: State)
    decreases |steps|
  {
    if steps == [] then s == end
    else Enabled(s, steps[0]) && Course(Apply(s, steps[0]), steps[1..], end)
  }

  lemma {:induction false} CourseInv(init: Entry, s: State, steps: seq<Step>, end: State)
    requires Inv(init, s) && Course(s, steps, end)
    ensures Inv(init, end)
    decreases |steps|
  {
    if steps != [] {
      StepInv(init, s, steps[0]);
      CourseInv(init, Apply(s, steps[0]), steps[1..], end);
    }
  }

  // ----- Every increment counts ---------------------------------------------------------

  /** What each thread was asked to add. */
  ghost function Deltas(threads: map<nat, Thread>): map<nat, int> {
    map t | t in threads :: threads[t].delta
  }

  ghost predicate SameDeltas(before: map<nat, Thread>, after: map<nat, Thread>) {
    after.Keys == before.Keys && forall t :: t in before ==> after[t].delta == before[t].delta
  }

  /** No step changes what a thread was asked to add, a failed swap included. */
  lemma {:induction false} CourseKeepsDeltas(s: State, steps: seq<Step>, end: State)
    requires Course(s, steps, end)
    ensures SameDeltas(s.threads, end.threads)
    decreases |steps|
  {
    if steps != [] {
      assert SameDeltas(s.threads, Apply(s, steps[0]).threads);
      CourseKeepsDeltas(Apply(s, steps[0]), steps[1..], end);
    }
  }

  lemma DeltasKept(before: map<nat, Thread>, after: map<nat, Thread>)
    requires SameDeltas(before, after)
    ensures Deltas(after) == Deltas(before)
  {
  }

  /** The sum of all values of a map. */
  ghost function TotalOf(m: map<nat, int>): int {
    if m == map[] then 0
    else
      var t :| t in m;
      m[t] + TotalOf(m - {t})
  }

  lemma {:induction false} TotalWithout(m: map<nat, int>, t: nat)
    requires t in m
    ensures TotalOf(m) == m[t] + TotalOf(m - {t})
    decreases |m|
  {
    var u :| u in m && TotalOf(m) == m[u] + TotalOf(m - {u});
    if u != t {
      TotalWithout(m - {u}, t);
      TotalWithout(m - {t}, u);
      assert m - {u} - {t} == m - {t} - {u};
    }
  }

  /** The threads that are through. */
  ghost function Finished(threads: map<nat, Thread>): map<nat, Thread> {
    map t | t in threads && threads[t].Done? :: threads[t]
  }

  ghost predicate LogFits(threads: map<nat, Thread>, log: seq<int>) {
    forall t :: t in threads && threads[t].Done? ==>
      0 < threads[t].turn <= |log| && log[threads[t].turn - 1] == threads[t].delta
  }

  lemma LastTurn(threads: map<nat, Thread>, log: seq<int>) returns (t: nat)
    requires TurnsFit(threads, |log|) && LogFits(threads, log) && log != []
    ensures t in threads && threads[t].Done? && threads[t].delta == log[|log| - 1]
    ensures TurnsFit(threads - {t}, |log| - 1) && LogFits(threads - {t}, log[..|log| - 1])
  {
    assert TurnTaken(threads, |log|);
    t :| t in threads && threads[t].Done? && threads[t].turn == |log|;
    var rest := threads - {t};
    forall k | 0 < k <= |log| - 1 ensures TurnTaken(rest, k) {
      assert TurnTaken(threads, k);
      var u :| u in threads && threads[u].Done? && threads[u].turn == k;
      assert rest[u].turn == k;
    }
  }

  lemma NoTurnsYet(threads: map<nat, Thread>)
    requires TurnsFit(threads, 0)
    ensures Deltas(Finished(threads)) == map[]
  {
  }

  lemma FinishedWithout(threads: map<nat, Thread>, t: nat)
    requires t in threads && threads[t].Done?
    ensures t in Deltas(Finished(threads)) && Deltas(Finished(threads))[t] == threads[t].delta
    ensures Deltas(Finished(threads)) - {t} == Deltas(Finished(threads - {t}))
  {
  }

  /** The log holds the increments of the threads that are through, each once. */
  lemma {:induction false} LogIsFinished(threads: map<nat, Thread>, log: seq<int>)
    requires TurnsFit(threads, |log|) && LogFits(threads, log)
    ensures Sum(log) == TotalOf(Deltas(Finished(threads)))
    decreases |log|
  {
    if log == [] {
      NoTurnsYet(threads);
    } else {
      var t := LastTurn(threads, log);
      LogIsFinished(threads - {t}, log[..|log| - 1]);
      FinishedWithout(threads, t);
      TotalWithout(Deltas(Finished(threads)), t);
    }
  }

  lemma EndInv(init: Entry, threads: map<nat, Thread>, steps: seq<Step>, end: State)
    requires init.Some? && init.value.value.Number? ==> Fits(init.value.value.n)
    requires forall t :: t in threads ==> threads[t].Start? && Fits(threads[t].delta)
    requires Course(State(init, threads, []), steps, end)
    ensures Inv(init, end)
  {
    CourseInv(init, State(init, threads, []), steps, end);
  }

  /** What the threads that are through got: the running total at their own turn. */
  ghost predicate ResultsFit(init: Entry, threads: map<nat, Thread>, log: seq<int>) {
    forall t :: t in threads && threads[t].Done? ==>
      && 0 < threads[t].turn <= |log| && log[threads[t].turn - 1] == threads[t].delta
      && threads[t].result == Total(init, log[..threads[t].turn])
  }

  lemma InvMeans(init: Entry, s: State)
    requires Inv(init, s)
    ensures s.entry == EntryAfter(init, s.log) && TurnsFit(s.threads, |s.log|)
    ensures ResultsFit(init, s.threads, s.log) && LogFits(s.threads, s.log)
  {
    forall t | t in s.threads && s.threads[t].Done? ensures ThreadFits(init, s.log, s.threads[t]) {
    }
  }

  /** Nothing is lost: in every interleaving no thread forgets what it was asked to add; the
      entry is the initial value plus the increments of the threads that are through, each of
      which got the running total at its own turn; and the turns number them without gap or
      repetition. */
  lemma NoLostUpdate(init: Entry, threads: map<nat, Thread>, steps: seq<Step>, end: State)
    requires init.Some? && init.value.value.Number? ==> Fits(init.value.value.n)
    requires forall t :: t in threads ==> threads[t].Start? && Fits(threads[t].delta)
    requires Course(State(init, threads, []), steps, end)
    ensures end.threads.Keys == threads.Keys
    ensures forall t :: t in threads ==> end.threads[t].delta == threads[t].delta
    ensures end.entry == EntryAfter(init, end.log) && Sum(end.log) == TotalOf(Deltas(Finished(end.threads)))
    ensures ResultsFit(init, end.threads, end.log) && TurnsFit(end.threads, |end.log|)
  {
    EndInv(init, threads, steps, end);
    InvMeans(init, end);
    CourseKeepsDeltas(State(init, threads, []), steps, end);
    LogIsFinished(end.threads, end.log);
  }

  lemma AllFinished(threads: map<nat, Thread>, end: map<nat, Thread>)
    requires SameDeltas(threads, end) && AllDone(end)
    ensures Deltas(Finished(end)) == Deltas(threads)
  {
  }

  lemma SomeTurn(threads: map<nat, Thread>, n: nat, t: nat)
    requires TurnsFit(threads, n) && t in threads && threads[t].Done?
    ensures n > 0
  {
  }

  /** The entry holds the initial number, or zero, plus `sum`, in 64-bit arithmetic, and
      expires as it did. */
  ghost predicate HoldsSum(init: Entry, entry: Entry, sum: int) {
    var start := if init.Some? && init.value.value.Number? then init.value.value.n else 0;
    entry == Some(Item(Number(Wrap64(start + sum)), if init.Some? then init.value.expiration else 0))
  }

  lemma EntryIsSum(init: Entry, entry: Entry, log: seq<int>)
    requires entry == EntryAfter(init, log) && log != []
    ensures HoldsSum(init, entry, Sum(log))
  {
  }

  ghost predicate AllDone(threads: map<nat, Thread>) {
    forall t :: t in threads ==> threads[t].Done?
  }

  /** Once every thread is through, the entry is the initial number, or zero, plus all that the
      threads were asked to add. */
  lemma EveryIncrementCounts(init: Entry, threads: map<nat, Thread>, steps: seq<Step>, end: State)
    requires init.Some? && init.value.value.Number? ==> Fits(init.value.value.n)
    requires forall t :: t in threads ==> threads[t].Start? && Fits(threads[t].delta)
    requires Course(State(init, threads, []), steps, end) && threads != map[] && AllDone(end.threads)
    ensures HoldsSum(init, end.entry, TotalOf(Deltas(threads)))
  {
    EndInv(init, threads, steps, end);
    CourseKeepsDeltas(State(init, threads, []), steps, end);
    DoneMeansSum(init, threads, end);
  }

  lemma DoneMeansSum(init: Entry, threads: map<nat, Thread>, end: State)
    requires Inv(init, end) && SameDeltas(threads, end.threads) && threads != map[] && AllDone(end.threads)
    ensures HoldsSum(init, end.entry, TotalOf(Deltas(threads)))
  {
    InvMeans(init, end);
    LogIsFinished(end.threads, end.log);
    AllFinished(threads, end.threads);
    SomeoneFinished(threads, end.threads, |end.log|);
    EntryIsSum(init, end.entry, end.log);
  }

  lemma SomeoneFinished(threads: map<nat, Thread>, end: map<nat, Thread>, n: nat)
    requires SameDeltas(threads, end) && threads != map[] && TurnsFit(end, n) && AllDone(end)
    ensures n > 0
  {
    var t :| t in threads;
    SomeTurn(end, n, t);
  }

  /** A swap fails only if another operation was completed after the thread had read
      the entry, so some thread always makes progress. */
  lemma SwapFailsOnlyAfterAnother(init: Entry, s: State, t: nat)
    requires Inv(init, s) && Enabled(s, CompareAndSwap(t)) && s.entry != Some(s.threads[t].seen)
    ensures s.threads[t].at < |s.log|
  {
    var th := s.threads[t];
    assert ThreadFits(init, s.log, th);
    assert s.log[..|s.log|] == s.log;
  }
}
