/** The countdown controller of the timer screen (MainViewModel.kt).

    The controller's state is given twice: as a value, `TimerState`, on which
    every operation is a pure transition function `AfterX`, and as the class
    `MainViewModel`, whose fields the methods update in place and whose
    methods are proved to perform exactly those transitions. The properties of
    the controller are lemmas about the transition functions. */
module Timer {

  /** One of the three duration fields the user dials in. */
  datatype Field = Hours | Minutes | Seconds

  /** The controller's state. `hasJob` says that `job` holds a launched tick
      loop that has not been cancelled; cancelling the job clears it. */
  datatype TimerState = TimerState(
    started: bool,
    hasJob: bool,
    totalClock: int,
    clock: int,
    hours: int,
    minutes: int,
    seconds: int)

  /** The state a freshly created controller starts in. */
  const Initial := TimerState(false, false, 0, 0, 0, 0, 0)

  /** The invariant every reachable state keeps: the edit fields are never
      negative, the remaining time lies between 0 and the snapshot, a loop is
      live exactly while the countdown is started, and a controller at rest
      holds no countdown. */
  predicate Consistent(t: TimerState)
  {
    && t.hours >= 0 && t.minutes >= 0 && t.seconds >= 0
    && 0 <= t.clock <= t.totalClock
    && t.started == t.hasJob
    && (!t.started ==> t.totalClock == 0)
  }

  /** The four fields the edit operations leave alone agree in `t` and `u`. */
  predicate SameCountdown(t: TimerState, u: TimerState)
  {
    t.started == u.started && t.hasJob == u.hasJob &&
    t.totalClock == u.totalClock && t.clock == u.clock
  }

  /** The value of one duration field. */
  function Get(t: TimerState, f: Field): (v: int)
  {
    match f
    case Hours => t.hours
    case Minutes => t.minutes
    case Seconds => t.seconds
  }

  /** `t` with one duration field replaced by `v`; nothing else changes. */
  function Set(t: TimerState, f: Field, v: int): (r: TimerState)
    ensures Get(r, f) == v
    ensures forall g :: g != f ==> Get(r, g) == Get(t, g)
    ensures SameCountdown(r, t)
  {
    match f
    case Hours => t.(hours := v)
    case Minutes => t.(minutes := v)
    case Seconds => t.(seconds := v)
  }

  /** The duration the three fields stand for, in seconds. */
  function Duration(h: int, m: int, s: int): (d: int)
    ensures h >= 0 && m >= 0 && s >= 0 ==> d >= 0
    ensures d == 0 && h >= 0 && m >= 0 && s >= 0 ==> h == m == s == 0
  {
    h * 3600 + m * 60 + s
  }

  /** `incHour`, `incMinute`, `incSecond`: one more unit in the chosen field. */
  function AfterInc(t: TimerState, f: Field): (r: TimerState)
    ensures Get(r, f) == Get(t, f) + 1
    ensures forall g :: g != f ==> Get(r, g) == Get(t, g)
    ensures SameCountdown(r, t)
    ensures Consistent(t) ==> Consistent(r)
  {
    Set(t, f, Get(t, f) + 1)
  }

  /** `decHour`, `decMinute`, `decSecond`: one unit less, never below zero. */
  function AfterDec(t: TimerState, f: Field): (r: TimerState)
    ensures Get(r, f) >= 0
    ensures Get(t, f) > 0 ==> Get(r, f) == Get(t, f) - 1
    ensures Get(t, f) == 0 ==> r == t
    ensures forall g :: g != f ==> Get(r, g) == Get(t, g)
    ensures SameCountdown(r, t)
    ensures Consistent(t) ==> Consistent(r)
  {
    Set(t, f, if Get(t, f) > 0 then Get(t, f) - 1 else 0)
  }

  /** `reset`: a started countdown with a live job is cancelled and cleared;
      the three edit fields are cleared in every case. */
  function AfterReset(t: TimerState): (r: TimerState)
    ensures r.hours == 0 && r.minutes == 0 && r.seconds == 0
    ensures t.started && t.hasJob ==> r == Initial
    ensures !(t.started && t.hasJob) ==> SameCountdown(r, t)
    ensures Consistent(t) ==> Consistent(r)
  {
    if t.started && t.hasJob then
      t.(started := false, hasJob := false, totalClock := 0, clock := 0,
         hours := 0, minutes := 0, seconds := 0)
    else
      t.(hours := 0, minutes := 0, seconds := 0)
  }

  /** `startCountdown` up to the launch of the loop: the dialled duration is
      snapshotted into the total and the remaining time, and a loop is live. */
  function AfterStart(t: TimerState): (r: TimerState)
    ensures r.started && r.hasJob
    ensures r.totalClock == Duration(t.hours, t.minutes, t.seconds)
    ensures r.clock == r.totalClock
    ensures r.hours == t.hours && r.minutes == t.minutes && r.seconds == t.seconds
    ensures Consistent(t) ==> Consistent(r)
  {
    var d := Duration(t.hours, t.minutes, t.seconds);
    t.(started := true, hasJob := true, totalClock := d, clock := d)
  }

  /** One pass through the body of the tick loop, taken only while time is left. */
  function AfterTick(t: TimerState): (r: TimerState)
    requires t.clock > 0
    ensures r.clock == t.clock - 1 && r == t.(clock := r.clock)
    ensures Consistent(t) ==> Consistent(r)
  {
    t.(clock := t.clock - 1)
  }

  /** `k` passes through the tick loop. */
  function AfterTicks(t: TimerState, k: nat): (r: TimerState)
    requires k <= t.clock
    decreases k
    ensures r == t.(clock := t.clock - k)
    ensures Consistent(t) ==> Consistent(r)
  {
    if k == 0 then t else AfterTicks(AfterTick(t), k - 1)
  }

  /** The launched loop run to its end: tick while time is left, then reset. */
  function AfterCountdown(t: TimerState): (r: TimerState)
    decreases t.clock
    ensures r.hours == 0 && r.minutes == 0 && r.seconds == 0
    ensures Consistent(t) && t.started ==> r == Initial
  {
    if t.clock > 0 then AfterCountdown(AfterTick(t)) else AfterReset(t)
  }

  /** `n` presses of an increment button. */
  function IncTimes(t: TimerState, f: Field, n: nat): (r: TimerState)
    ensures Get(r, f) == Get(t, f) + n
    ensures forall g :: g != f ==> Get(r, g) == Get(t, g)
    ensures SameCountdown(r, t)
  {
    if n == 0 then t else AfterInc(IncTimes(t, f, n - 1), f)
  }

  /** `n` presses of a decrement button. */
  function DecTimes(t: TimerState, f: Field, n: nat): (r: TimerState)
    decreases n
    ensures Get(t, f) >= 0 ==> Get(r, f) == if Get(t, f) >= n then Get(t, f) - n else 0
    ensures forall g :: g != f ==> Get(r, g) == Get(t, g)
    ensures SameCountdown(r, t)
  {
    if n == 0 then t else DecTimes(AfterDec(t, f), f, n - 1)
  }

  // ---------------------------------------------------------------------
  // Editing the duration

  /** An increment is undone by the matching decrement. */
  lemma IncThenDec(t: TimerState, f: Field)
    requires Get(t, f) >= 0
    ensures AfterDec(AfterInc(t, f), f) == t
  {
  }

  /** Above zero, a decrement is undone by the matching increment. */
  lemma DecThenInc(t: TimerState, f: Field)
    requires Get(t, f) > 0
    ensures AfterInc(AfterDec(t, f), f) == t
  {
  }

  /** `n` increments followed by `n` decrements restore the state. */
  lemma {:induction false} DecTimesUndoesIncTimes(t: TimerState, f: Field, n: nat)
    requires Get(t, f) >= 0
    ensures DecTimes(IncTimes(t, f, n), f, n) == t
  {
    if n > 0 {
      var u := IncTimes(t, f, n - 1);
      IncThenDec(u, f);
      DecTimesUndoesIncTimes(t, f, n - 1);
    }
  }

  /** Decrementing a field that is already zero changes nothing, however often. */
  lemma {:induction false} DecTimesAtZero(t: TimerState, f: Field, n: nat)
    requires Get(t, f) == 0
    ensures DecTimes(t, f, n) == t
  {
    if n > 0 {
      DecTimesAtZero(AfterDec(t, f), f, n - 1);
    }
  }

  // ---------------------------------------------------------------------
  // Reset

  /** From any reachable state, `reset` returns the controller to its initial state. */
  lemma ResetRestoresInitial(t: TimerState)
    requires Consistent(t)
    ensures AfterReset(t) == Initial
  {
  }

  /** Resetting twice is the same as resetting once. */
  lemma ResetIdempotent(t: TimerState)
    ensures AfterReset(AfterReset(t)) == AfterReset(t)
  {
  }

  // ---------------------------------------------------------------------
  // The tick loop

  /** The loop ticks exactly `clock` times and then resets. */
  lemma {:induction false} CountdownIsTicksThenReset(t: TimerState)
    requires t.clock >= 0
    decreases t.clock
    ensures AfterCountdown(t) == AfterReset(AfterTicks(t, t.clock))
  {
    if t.clock > 0 {
      var u := AfterTick(t);
      CountdownIsTicksThenReset(u);
      assert AfterTicks(t, t.clock) == AfterTicks(u, u.clock);
    }
  }

  /** While the loop runs after a start, the total stays fixed and the
      remaining time is the total minus the ticks so far. */
  lemma TicksAfterStart(t: TimerState, k: nat)
    requires Consistent(t)
    requires k <= Duration(t.hours, t.minutes, t.seconds)
    ensures var r := AfterTicks(AfterStart(t), k);
      && r.totalClock == Duration(t.hours, t.minutes, t.seconds)
      && r.clock == r.totalClock - k
      && 0 <= r.clock <= r.totalClock
      && r.started
  {
  }

  /** Starting and letting the countdown run out returns the controller to
      its initial state, whatever duration was dialled (zero included). */
  lemma StartThenCountdown(t: TimerState)
    requires Consistent(t)
    ensures AfterCountdown(AfterStart(t)) == Initial
  {
  }

  // ---------------------------------------------------------------------
  // The controller object

  /** The controller as an object whose methods update its fields in place. */
  class MainViewModel {
    var started: bool
    var totalClock: int
    var clock: int
    var hours: int
    var minutes: int
    var seconds: int
    var hasJob: bool

    /** The fields as a value. */
    function State(): (s: TimerState)
      reads this
    {
      TimerState(started, hasJob, totalClock, clock, hours, minutes, seconds)
    }

    predicate Valid()
      reads this
    {
      Consistent(State())
    }

    constructor ()
      ensures Valid() && State() == Initial
    {
      started, totalClock, clock := false, 0, 0;
      hours, minutes, seconds := 0, 0, 0;
      hasJob := false;
    }

    method Reset()
      requires Valid()
      modifies this
      ensures Valid() && State() == AfterReset(old(State()))
    {
      if started && hasJob {
        hasJob := false;  // the job is cancelled
        started := false;
        totalClock := 0;
        clock := 0;
      }
      hours := 0;
      minutes := 0;
      seconds := 0;
    }

    /** Launching the loop is recorded in `hasJob`; the loop itself is
        `Tick` or `RunCountdown`. The screen offers Start only while the
        countdown is not started. */
    method StartCountdown()
      requires Valid() && !started
      modifies this
      ensures Valid() && State() == AfterStart(old(State()))
    {
      started := true;
      totalClock := hours * 3600 + minutes * 60 + seconds;
      clock := totalClock;
      hasJob := true;
    }

    /** One iteration of the launched loop, after the one-second delay. */
    method Tick()
      requires Valid() && hasJob && clock > 0
      modifies this
      ensures Valid() && State() == AfterTick(old(State()))
    {
      clock := clock - 1;
    }

    /** The launched loop run without interruption; the ghost result counts
        the ticks it took. */
    method RunCountdown() returns (ghost ticks: nat)
      requires Valid() && hasJob
      modifies this
      ensures Valid() && State() == AfterCountdown(old(State()))
      ensures ticks == old(clock) && State() == Initial
    {
      ghost var start := State();
      ticks := 0;
      while clock > 0
        invariant Valid() && hasJob
        invariant ticks <= start.clock && State() == AfterTicks(start, ticks)
        decreases clock
      {
        Tick();
        ticks := ticks + 1;
      }
      CountdownIsTicksThenReset(start);
      Reset();
    }

    method IncHour()
      requires Valid()
      modifies this
      ensures Valid() && State() == AfterInc(old(State()), Hours)
    {
      hours := hours + 1;
    }

    method DecHour()
      requires Valid()
      modifies this
      ensures Valid() && State() == AfterDec(old(State()), Hours)
    {
      hours := if hours > 0 then hours - 1 else 0;
    }

    method IncMinute()
      requires Valid()
      modifies this
      ensures Valid() && State() == AfterInc(old(State()), Minutes)
    {
      minutes := minutes + 1;
    }

    method DecMinute()
      requires Valid()
      modifies this
      ensures Valid() && State() == AfterDec(old(State()), Minutes)
    {
      minutes := if minutes > 0 then minutes - 1 else 0;
    }

    method IncSecond()
      requires Valid()
      modifies this
      ensures Valid() && State() == AfterInc(old(State()), Seconds)
    {
      seconds := seconds + 1;
    }

    method DecSecond()
      requires Valid()
      modifies this
      ensures Valid() && State() == AfterDec(old(State()), Seconds)
    {
      seconds := if seconds > 0 then seconds - 1 else 0;
    }
  }
}
