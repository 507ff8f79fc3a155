/**
 * The counter machine at the heart of `AutosaveThreadFunc`, identical in
 * both versions of the mod once `shouldSave` is known: a seconds and a
 * minutes counter driven by one-second sleeps, the `justInGameHasSlept`
 * flag that skips the first eligible second, and the
 * `g_ManuallySavedByUser` flag the game's save hook raises.
 *
 * One pass of the `while (true)` body is `AutosaveLoop.Iterate`; the
 * sleeps are the passing of one iteration. The hook runs on the game's
 * thread; here it is a call to `GameSaveCalled` between two iterations.
 */
module AutosaveCounters {
  import opened Host
  import opened Decimal
  import opened Wrappers

  /** The loop's variables between two iterations. */
  datatype Counters = Counters(secondsPassed: int, minutesPassed: int,
                               justInGameHasSlept: bool, manuallySavedByUser: bool)

  /** Seconds counted since the counters were last reset. */
  function Elapsed(c: Counters): int
  {
    60 * c.minutesPassed + c.secondsPassed
  }

  /** The ranges the counters stay in for a positive interval. */
  predicate CountersValid(c: Counters, interval: int)
  {
    0 <= c.secondsPassed < 60 && 0 <= c.minutesPassed <= interval
  }

  /** The counters after one iteration, and whether it called the game's save routine. */
  datatype StepResult = StepResult(next: Counters, saveCalled: bool)

  /** One more second on the two counters, rolling over into minutes at 60. */
  function Advance(seconds: int, minutes: int): (r: (int, int))
    requires 0 <= seconds < 60
    ensures 0 <= r.0 < 60
    ensures 60 * r.1 + r.0 == 60 * minutes + seconds + 1
  {
    if seconds + 1 >= 60 then (0, minutes + 1) else (seconds + 1, minutes)
  }

  /**
   * One iteration once `shouldSave` is known: the reset when the interval
   * has elapsed, then the branch on the manual-save flag, the first
   * eligible second and eligibility, which set the two flags, then (except
   * when not eligible) the one-second advance.
   */
  function Step(c: Counters, interval: int, shouldSave: bool): (r: StepResult)
    requires 0 < interval && CountersValid(c, interval)
    ensures CountersValid(r.next, interval)
  {
    var specifiedTimePassed := interval <= c.minutesPassed;
    var seconds := if specifiedTimePassed then 0 else c.secondsPassed;
    var minutes := if specifiedTimePassed then 0 else c.minutesPassed;
    var advanced := Advance(seconds, minutes);
    if c.manuallySavedByUser then StepResult(Counters(advanced.0, advanced.1, true, false), false)
    else if !c.justInGameHasSlept && shouldSave then StepResult(Counters(advanced.0, advanced.1, true, false), false)
    else if shouldSave then StepResult(Counters(advanced.0, advanced.1, true, false), specifiedTimePassed)
    else StepResult(Counters(seconds, minutes, false, false), false)
  }

  /**
   * What one iteration means. The game is saved only when no manual save
   * is pending, the previous iteration was already eligible, this one is
   * too, and the interval has elapsed. The pending manual save is always
   * consumed. Whenever the interval has elapsed the count restarts, and
   * the count advances by one second exactly when the iteration was
   * eligible or consumed a manual save; otherwise the loop forgets that
   * it was in a game.
   */
  lemma StepMeaning(c: Counters, interval: int, shouldSave: bool)
    requires 0 < interval && CountersValid(c, interval)
    ensures var r := Step(c, interval, shouldSave);
            && (r.saveCalled <==>
                  !c.manuallySavedByUser && c.justInGameHasSlept && shouldSave && interval <= c.minutesPassed)
            && !r.next.manuallySavedByUser
            && (r.next.justInGameHasSlept <==> c.manuallySavedByUser || shouldSave)
            && Elapsed(r.next) == (if interval <= c.minutesPassed then 0 else Elapsed(c))
                                  + (if c.manuallySavedByUser || shouldSave then 1 else 0)
  {
  }

  /** A save restarts the count: the iteration that saves leaves one second on the clock. */
  lemma SaveRestartsCount(c: Counters, interval: int, shouldSave: bool)
    requires 0 < interval && CountersValid(c, interval)
    requires Step(c, interval, shouldSave).saveCalled
    ensures Elapsed(Step(c, interval, shouldSave).next) == 1
  {
  }

  /**
   * A manual save does not restart the count: with the interval about to
   * elapse, the iteration that consumes the manual save does not save, and
   * the very next eligible iteration does.
   */
  lemma ManualSaveDoesNotRestartCount(interval: int)
    requires 0 < interval
    ensures var c := Counters(59, interval - 1, true, true);
            var first := Step(c, interval, true);
            && !first.saveCalled
            && first.next.minutesPassed == interval
            && Step(first.next, interval, true).saveCalled
  {
    var c := Counters(59, interval - 1, true, true);
    StepMeaning(c, interval, true);
    var first := Step(c, interval, true);
    StepMeaning(first.next, interval, true);
  }

  class AutosaveLoop {
    /** `g_AutoSaveInterval`, fixed before the thread starts. */
    const interval: int32
    var secondsPassed: int
    var minutesPassed: int
    var justInGameHasSlept: bool
    /** `g_ManuallySavedByUser`, a global variable of the C++ code. */
    var manuallySavedByUser: bool

    function Snapshot(): Counters
      reads this
    {
      Counters(secondsPassed, minutesPassed, justInGameHasSlept, manuallySavedByUser)
    }

    /**
     * The thread only runs with a positive interval, and the minutes
     * counter never exceeds it, so neither 32-bit counter can overflow.
     */
    predicate Valid()
      reads this
    {
      0 < interval && CountersValid(Snapshot(), interval)
    }

    /** The thread's start: both counters at zero, nothing slept yet, no manual save seen. */
    constructor (interval: int32)
      requires 0 < interval
      ensures this.interval == interval && Valid()
      ensures Snapshot() == Counters(0, 0, false, false)
    {
      this.interval := interval;
      secondsPassed := 0;
      minutesPassed := 0;
      justInGameHasSlept := false;
      manuallySavedByUser := false;
    }

    /** The detoured game save function: it raises the flag before saving. */
    method GameSaveCalled()
      requires Valid()
      modifies this`manuallySavedByUser
      ensures Valid() && manuallySavedByUser
    {
      manuallySavedByUser := true;
    }

    /** One pass of the loop body once `shouldSave` has been decided. */
    method Iterate(shouldSave: bool) returns (saveCalled: bool)
      requires Valid()
      modifies this`secondsPassed, this`minutesPassed, this`justInGameHasSlept, this`manuallySavedByUser
      ensures Valid()
      ensures StepResult(Snapshot(), saveCalled) == Step(old(Snapshot()), interval, shouldSave)
    {
      saveCalled := false;
      var specifiedTimePassed := minutesPassed >= interval as int;

      if specifiedTimePassed {
        secondsPassed, minutesPassed := 0, 0;
      }

      if manuallySavedByUser {
        manuallySavedByUser := false;
        justInGameHasSlept := true;
      } else if !justInGameHasSlept && shouldSave {
        justInGameHasSlept := true;
      } else if shouldSave {
        if specifiedTimePassed {
          saveCalled := true;
        }
      } else {
        justInGameHasSlept := false;
        return;
      }

      secondsPassed := secondsPassed + 1;
      if secondsPassed >= 60 {
        secondsPassed := 0;
        minutesPassed := minutesPassed + 1;
      }
    }
  }

  /**
   * What happens before one iteration: whether the player saved the game
   * since the previous one, and whether this iteration may save.
   */
  datatype Tick = Tick(gameSaved: bool, shouldSave: bool)

  /** The counters with a manual save recorded if one happened. */
  function Record(c: Counters, t: Tick): Counters
  {
    c.(manuallySavedByUser := c.manuallySavedByUser || t.gameSaved)
  }

  /** A run of iterations: the final counters and, per iteration, whether it saved. */
  function Run(c: Counters, interval: int, ticks: seq<Tick>): (r: (Counters, seq<bool>))
    requires 0 < interval && CountersValid(c, interval)
    ensures CountersValid(r.0, interval) && |r.1| == |ticks|
  {
    if ticks == [] then (c, [])
    else
      var prior := Run(c, interval, ticks[..|ticks| - 1]);
      var t := ticks[|ticks| - 1];
      var s := Step(Record(prior.0, t), interval, t.shouldSave);
      (s.next, prior.1 + [s.saveCalled])
  }

  /** Unfolds `Run` once: the last iteration, after the run of all earlier ones. */
  lemma RunLast(c: Counters, interval: int, ticks: seq<Tick>)
    requires 0 < interval && CountersValid(c, interval)
    requires ticks != []
    ensures var prior := Run(c, interval, ticks[..|ticks| - 1]);
            var t := ticks[|ticks| - 1];
            var s := Step(Record(prior.0, t), interval, t.shouldSave);
            Run(c, interval, ticks) == (s.next, prior.1 + [s.saveCalled])
  {
  }

  /** The thread loop over a finite prefix of its iterations. */
  method RunLoop(loop: AutosaveLoop, ticks: seq<Tick>) returns (saves: seq<bool>)
    requires loop.Valid()
    modifies loop
    ensures loop.Valid()
    ensures (loop.Snapshot(), saves) == Run(old(loop.Snapshot()), loop.interval, ticks)
  {
    ghost var start := loop.Snapshot();
    saves := [];
    var i := 0;
    while i < |ticks|
      invariant 0 <= i <= |ticks|
      invariant loop.Valid()
      invariant (loop.Snapshot(), saves) == Run(start, loop.interval, ticks[..i])
    {
      assert ticks[..i + 1][..i] == ticks[..i];
      RunLast(start, loop.interval, ticks[..i + 1]);
      ghost var before := loop.Snapshot();
      if ticks[i].gameSaved {
        loop.GameSaveCalled();
      }
      assert loop.Snapshot() == Record(before, ticks[i]);
      var saved := loop.Iterate(ticks[i].shouldSave);
      saves := saves + [saved];
      i := i + 1;
    }
    assert ticks[..i] == ticks;
  }

  /** Running `a` then `b` is running `a + b`. */
  lemma {:induction false} RunAppend(c: Counters, interval: int, a: seq<Tick>, b: seq<Tick>)
    requires 0 < interval && CountersValid(c, interval)
    ensures var first := Run(c, interval, a);
            var second := Run(first.0, interval, b);
            Run(c, interval, a + b) == (second.0, first.1 + second.1)
    decreases |b|
  {
    var first := Run(c, interval, a);
    if b == [] {
      assert a + b == a;
      assert first.1 + [] == first.1;
    } else {
      var init := b[..|b| - 1];
      var t := b[|b| - 1];
      assert (a + b)[..|a + b| - 1] == a + init;
      assert (a + b)[|a + b| - 1] == t;
      RunAppend(c, interval, a, init);
      RunLast(c, interval, a + b);
      RunLast(first.0, interval, b);
      var second := Run(first.0, interval, init);
      var s := Step(Record(second.0, t), interval, t.shouldSave);
      assert first.1 + second.1 + [s.saveCalled] == first.1 + (second.1 + [s.saveCalled]);
    }
  }

  /**
   * As long as fewer than `interval` minutes can have been counted, no
   * iteration saves, and each adds at most one second to the count.
   */
  lemma {:induction false} NoSaveBeforeInterval(c: Counters, interval: int, ticks: seq<Tick>)
    requires 0 < interval && CountersValid(c, interval)
    requires Elapsed(c) + |ticks| <= 60 * interval
    ensures Elapsed(Run(c, interval, ticks).0) <= Elapsed(c) + |ticks|
    ensures forall k :: 0 <= k < |ticks| ==> !Run(c, interval, ticks).1[k]
  {
    if ticks != [] {
      var init := ticks[..|ticks| - 1];
      var t := ticks[|ticks| - 1];
      NoSaveBeforeInterval(c, interval, init);
      RunLast(c, interval, ticks);
      var prior := Run(c, interval, init);
      var d := Record(prior.0, t);
      assert d.minutesPassed < interval;
      var s := Step(d, interval, t.shouldSave);
      assert !s.saveCalled;
      assert Run(c, interval, ticks).1 == prior.1 + [false];
    }
  }

  /** A run whose last iteration saves ends with one second counted. */
  lemma {:induction false} SaveLeavesOneSecond(c: Counters, interval: int, a: seq<Tick>)
    requires 0 < interval && CountersValid(c, interval)
    requires a != [] && Run(c, interval, a).1[|a| - 1]
    ensures Elapsed(Run(c, interval, a).0) == 1
  {
    RunLast(c, interval, a);
    var prior := Run(c, interval, a[..|a| - 1]);
    var t := a[|a| - 1];
    SaveRestartsCount(Record(prior.0, t), interval, t.shouldSave);
  }

  /** The outcomes of a run split at `i` and `j` into three consecutive runs. */
  lemma {:induction false} RunSplit(c: Counters, interval: int, ticks: seq<Tick>, i: nat, j: nat)
    requires 0 < interval && CountersValid(c, interval)
    requires i < j < |ticks|
    ensures var first := Run(c, interval, ticks[..i + 1]);
            var second := Run(first.0, interval, ticks[i + 1..j + 1]);
            && Run(c, interval, ticks).1[i] == first.1[i]
            && Run(c, interval, ticks).1[j] == second.1[j - i - 1]
  {
    var a := ticks[..i + 1];
    var b := ticks[i + 1..j + 1];
    var rest := ticks[j + 1..];
    assert ticks == (a + b) + rest;
    RunAppend(c, interval, a + b, rest);
    RunAppend(c, interval, a, b);
    var first := Run(c, interval, a);
    var second := Run(first.0, interval, b);
    assert Run(c, interval, ticks).1 == (first.1 + second.1) + Run(second.0, interval, rest).1;
  }

  /** A run `b` that ends in a save, after a run `a` that ended in one, is at least `60 * interval` iterations long. */
  lemma {:induction false} NextSaveLate(c: Counters, interval: int, a: seq<Tick>, b: seq<Tick>)
    requires 0 < interval && CountersValid(c, interval)
    requires a != [] && Run(c, interval, a).1[|a| - 1]
    requires b != [] && Run(Run(c, interval, a).0, interval, b).1[|b| - 1]
    ensures |b| >= 60 * interval
  {
    SaveLeavesOneSecond(c, interval, a);
    if |b| < 60 * interval {
      NoSaveBeforeInterval(Run(c, interval, a).0, interval, b);
    }
  }

  /**
   * Two saves of the loop are at least `60 * interval` iterations, so at
   * least `interval` minutes of one-second sleeps, apart.
   */
  lemma SavesAtLeastIntervalApart(c: Counters, interval: int, ticks: seq<Tick>, i: nat, j: nat)
    requires 0 < interval && CountersValid(c, interval)
    requires i < j < |ticks|
    requires Run(c, interval, ticks).1[i] && Run(c, interval, ticks).1[j]
    ensures j - i >= 60 * interval
  {
    RunSplit(c, interval, ticks, i, j);
    var a := ticks[..i + 1];
    var b := ticks[i + 1..j + 1];
    assert |a| == i + 1 && |b| == j - i;
    NextSaveLate(c, interval, a, b);
  }

  /** An iteration that may not save does not, whatever the counters say. */
  lemma {:induction false} IneligibleRunNeverSaves(c: Counters, interval: int, ticks: seq<Tick>)
    requires 0 < interval && CountersValid(c, interval)
    requires forall k :: 0 <= k < |ticks| ==> !ticks[k].shouldSave
    ensures forall k :: 0 <= k < |ticks| ==> !Run(c, interval, ticks).1[k]
  {
    if ticks != [] {
      var init := ticks[..|ticks| - 1];
      assert forall k :: 0 <= k < |init| ==> init[k] == ticks[k];
      IneligibleRunNeverSaves(c, interval, init);
      RunLast(c, interval, ticks);
      assert Run(c, interval, ticks).1 == Run(c, interval, init).1 + [false];
    }
  }

  /** How `Initialize` ended: which guard stopped it, or the thread started with its interval. */
  datatype Startup = NotAttached | ConfigFailed | IntervalInvalid | ThreadStarted(interval: int32)

  /** The value used when the configuration has no `IntervalInMinutes` key. */
  const DefaultInterval: string := "10"

  /**
   * `Initialize`: nothing happens unless the save hook was attached and
   * the configuration could be set up; the interval is read with
   * `std::stoi` and must be positive, otherwise the thread is never
   * started.
   */
  function Initialize(detoursAttached: bool, configInitialized: bool, configuredInterval: Option<string>)
    : (r: Startup)
    ensures r.ThreadStarted? ==> detoursAttached && configInitialized && 0 < r.interval
    ensures r.ThreadStarted? ==> var s := if configuredInterval.Some? then configuredInterval.value else DefaultInterval;
                                 Stoi(s) == Some(r.interval)
    ensures detoursAttached && configInitialized && r.IntervalInvalid? ==>
              var s := if configuredInterval.Some? then configuredInterval.value else DefaultInterval;
              Stoi(s).None? || Stoi(s).value <= 0
  {
    if !detoursAttached then NotAttached
    else if !configInitialized then ConfigFailed
    else
      var intervalString := if configuredInterval.Some? then configuredInterval.value else DefaultInterval;
      match Stoi(intervalString)
      case None => IntervalInvalid
      case Some(interval) => if interval <= 0 then IntervalInvalid else ThreadStarted(interval)
  }

  /** Without the key, the thread starts with a ten-minute interval. */
  lemma DefaultIntervalIsTen()
    ensures Initialize(true, true, None) == ThreadStarted(10)
  {
    assert DecimalString(1) == "1";
    assert DecimalString(10) == DecimalString(1) + [DigitChar(0)];
    assert DecimalString(10) + [] == DefaultInterval;
    StoiReadsDecimal(10, []);
    assert Stoi(DefaultInterval) == Some(10);
  }

  /**
   * Every positive decimal number in range is accepted as written, even
   * with a non-digit suffix such as " minutes"; zero and negative numbers
   * are refused.
   */
  lemma IntervalAcceptedIffPositive(n: nat, rest: string)
    requires n <= IntMax
    requires rest == [] || !IsDigit(rest[0])
    ensures Initialize(true, true, Some(DecimalString(n) + rest)) == (if 0 < n then ThreadStarted(n) else IntervalInvalid)
    ensures 0 < n ==> Initialize(true, true, Some("-" + DecimalString(n) + rest)) == IntervalInvalid
  {
    StoiReadsDecimal(n, rest);
    if 0 < n {
      StoiReadsMinusDigits(DecimalString(n), rest);
    }
  }

  /** A started thread's loop satisfies the loop invariant from its first iteration. */
  method StartThread(detoursAttached: bool, configInitialized: bool, configuredInterval: Option<string>)
    returns (loop: Option<AutosaveLoop>)
    ensures loop.Some? <==> Initialize(detoursAttached, configInitialized, configuredInterval).ThreadStarted?
    ensures loop.Some? ==> && fresh(loop.value) && loop.value.Valid()
                           && loop.value.interval == Initialize(detoursAttached, configInitialized, configuredInterval).interval
                           && loop.value.Snapshot() == Counters(0, 0, false, false)
  {
    match Initialize(detoursAttached, configInitialized, configuredInterval)
    case ThreadStarted(interval) =>
      var l := new AutosaveLoop(interval);
      return Some(l);
    case _ =>
      return None;
  }
}
